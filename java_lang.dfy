/** The parts of java.lang that the file access code relies on: the signed
    `byte`, and the String operations `trim`, `startsWith`, `endsWith` and
    `contains`. A Java String is modelled as a `string` in which each
    `char` stands for one UTF-16 unit; a lone surrogate unit cannot be
    represented, so text is taken to lie in the Basic Multilingual Plane. */
module JavaLang {

  /** A Java `byte`: a signed 8-bit value; arrays of it start out zeroed. */
  newtype byte = x: int | -128 <= x < 128

  /** `String.trim` removes every leading and trailing char whose code is
      at most U+0020 (space and the control characters). */
  predicate IsTrimmable(c: char)
  {
    c <= ' '
  }

  /** `s` without its leading trimmable chars. */
  function TrimStart(s: string): string
  {
    if |s| > 0 && IsTrimmable(s[0]) then TrimStart(s[1..]) else s
  }

  /** `s` without its trailing trimmable chars. */
  function TrimEnd(s: string): string
  {
    if |s| > 0 && IsTrimmable(s[|s| - 1]) then TrimEnd(s[..|s| - 1]) else s
  }

  /** Java's `String.trim`. */
  function Trim(s: string): string
  {
    TrimEnd(TrimStart(s))
  }

  /** `TrimStart(s)` is the suffix of `s` after its longest trimmable prefix. */
  lemma {:induction false} TrimStartSuffix(s: string) returns (i: nat)
    ensures i <= |s| && TrimStart(s) == s[i..]
    ensures forall k :: 0 <= k < i ==> IsTrimmable(s[k])
    ensures i < |s| ==> !IsTrimmable(s[i])
  {
    if |s| > 0 && IsTrimmable(s[0]) {
      var i' := TrimStartSuffix(s[1..]);
      i := i' + 1;
      assert s[1..][i'..] == s[i..];
    } else {
      i := 0;
    }
  }

  /** `TrimEnd(s)` is the prefix of `s` before its longest trimmable suffix. */
  lemma {:induction false} TrimEndPrefix(s: string) returns (j: nat)
    ensures j <= |s| && TrimEnd(s) == s[..j]
    ensures forall k :: j <= k < |s| ==> IsTrimmable(s[k])
    ensures 0 < j ==> !IsTrimmable(s[j - 1])
  {
    if |s| > 0 && IsTrimmable(s[|s| - 1]) {
      j := TrimEndPrefix(s[..|s| - 1]);
      assert s[..|s| - 1][..j] == s[..j];
    } else {
      j := |s|;
    }
  }

  /** `Trim(s)` is the window `s[i..j]` left when the longest trimmable
      prefix and the longest trimmable suffix are cut off: everything cut is
      trimmable and the window starts and ends with a kept char. These four
      facts determine the window, so they specify `trim` completely. */
  lemma TrimWindow(s: string) returns (i: nat, j: nat)
    ensures i <= j <= |s| && Trim(s) == s[i..j]
    ensures forall k :: 0 <= k < i ==> IsTrimmable(s[k])
    ensures forall k :: j <= k < |s| ==> IsTrimmable(s[k])
    ensures i < j ==> !IsTrimmable(s[i]) && !IsTrimmable(s[j - 1])
  {
    i := TrimStartSuffix(s);
    var t := s[i..];
    var j' := TrimEndPrefix(t);
    j := i + j';
    assert t[..j'] == s[i..j];
    forall k | j <= k < |s|
      ensures IsTrimmable(s[k])
    {
      assert s[k] == t[k - i];
    }
    if i < j {
      assert s[i] == t[0];
      assert s[j - 1] == t[j' - 1];
    }
  }

  /** A string with no `c` in it trims to a string with no `c` in it. */
  lemma TrimKeepsAbsence(s: string, c: char)
    requires c !in s
    ensures c !in Trim(s)
  {
    var i, j := TrimWindow(s);
    assert forall x :: x in s[i..j] ==> x in s;
  }

  /** Java's `String.startsWith`. */
  predicate StartsWith(s: string, prefix: string)
  {
    |prefix| <= |s| && s[..|prefix|] == prefix
  }

  /** Java's `String.endsWith`. */
  predicate EndsWith(s: string, suffix: string)
  {
    |suffix| <= |s| && s[|s| - |suffix|..] == suffix
  }

  /** Java's `String.contains`, scanning `s` from the left. */
  predicate Contains(s: string, t: string)
    decreases |s|
  {
    StartsWith(s, t) || (|s| > 0 && Contains(s[1..], t))
  }

  /** `t` occurs in `s` starting at index `i`. */
  predicate OccursAt(s: string, t: string, i: int)
  {
    0 <= i <= |s| - |t| && s[i..i + |t|] == t
  }

  /** An occurrence in the tail of `s` is an occurrence in `s`, one
      position later, and back. */
  lemma OccursInTail(s: string, t: string, i: int)
    requires |s| > 0
    ensures OccursAt(s[1..], t, i) <==> 0 <= i && OccursAt(s, t, i + 1)
  {
    if 0 <= i <= |s| - 1 - |t| {
      assert s[1..][i..i + |t|] == s[i + 1..i + 1 + |t|];
    }
  }

  /** `Contains` holds exactly when `t` occurs at some position of `s`
      (the empty string occurs everywhere). */
  lemma {:induction false} ContainsIffOccurs(s: string, t: string)
    ensures Contains(s, t) <==> exists i :: OccursAt(s, t, i)
    decreases |s|
  {
    if StartsWith(s, t) {
      assert OccursAt(s, t, 0);
    } else if |s| == 0 {
      assert forall i :: !OccursAt(s, t, i);
    } else {
      ContainsIffOccurs(s[1..], t);
      if Contains(s[1..], t) {
        var i :| OccursAt(s[1..], t, i);
        OccursInTail(s, t, i);
      } else {
        forall i | OccursAt(s, t, i)
          ensures false
        {
          OccursInTail(s, t, i - 1);
        }
      }
    }
  }

}
