/** The two pieces of java.lang behaviour the bridges depend on: String.trim
    and the narrowing cast of a float to an int. */
module JavaLang {

  const INT_MIN: int := -0x8000_0000
  const INT_MAX: int := 0x7FFF_FFFF

  /** String.trim treats every character up to U+0020 as removable. */
  predicate IsTrimmable(c: char) {
    c <= ' '
  }

  function TrimStart(s: string): (r: string)
    ensures |r| <= |s| && r == s[|s| - |r|..]
    ensures r != [] ==> !IsTrimmable(r[0])
    ensures forall i :: 0 <= i < |s| - |r| ==> IsTrimmable(s[i])
    decreases |s|
  {
    if s != [] && IsTrimmable(s[0]) then TrimStart(s[1..]) else s
  }

  function TrimEnd(s: string): (r: string)
    ensures |r| <= |s| && r == s[..|r|]
    ensures r != [] ==> !IsTrimmable(r[|r| - 1])
    ensures forall i :: |r| <= i < |s| ==> IsTrimmable(s[i])
    decreases |s|
  {
    if s != [] && IsTrimmable(s[|s| - 1]) then TrimEnd(s[..|s| - 1]) else s
  }

  /** String.trim: the string without its leading and trailing characters <= U+0020. */
  function Trim(s: string): (r: string)
    ensures |r| <= |s|
    ensures r != [] ==> !IsTrimmable(r[0]) && !IsTrimmable(r[|r| - 1])
  {
    TrimEnd(TrimStart(s))
  }

  /** `s.trim().length() == 0`. */
  predicate IsBlank(s: string) {
    |Trim(s)| == 0
  }

  /** A string is blank exactly when every one of its characters is trimmable. */
  lemma BlankIff(s: string)
    ensures IsBlank(s) <==> forall i :: 0 <= i < |s| ==> IsTrimmable(s[i])
  {
  }

  /** Java's `(int) f` for a finite float f: rounds toward zero and saturates
      at the bounds of int. */
  function IntCast(x: real): (r: int)
    ensures INT_MIN <= r <= INT_MAX
    ensures x >= INT_MAX as real ==> r == INT_MAX
    ensures x <= INT_MIN as real ==> r == INT_MIN
    ensures 0.0 <= x ==> 0 <= r && r as real <= x
    ensures x <= 0.0 ==> r <= 0 && x <= r as real
    ensures INT_MIN as real < x < INT_MAX as real ==> -1.0 < x - r as real < 1.0
  {
    if x >= INT_MAX as real then INT_MAX
    else if x <= INT_MIN as real then INT_MIN
    else if x >= 0.0 then x.Floor
    else -((-x).Floor)
  }
}
