/** Ordering and equality of a FixedString's contents against another text
    (compareTo, equals, equalsIgnoreCase). */
module Compare {
  import opened Chars
  import opened CStrings

  /** compareTo(rhs): 0 when both are empty; the first byte of the contents
      when only `rhs` is empty; minus the first byte of `rhs` when only the
      contents are empty; otherwise strncmp over max(length, |rhs|) bytes,
      whose sign is the lexicographic order. */
  function CompareTo(t: seq<char>, rhs: seq<char>): (r: int)
    requires IsText(t) && IsText(rhs)
    ensures rhs == [] ==> r == (if t == [] then 0 else t[0] as int)
    ensures t == [] && rhs != [] ==> r == -(rhs[0] as int)
    ensures r == 0 <==> t == rhs
    ensures r < 0 <==> LexLess(t, rhs)
    ensures r > 0 <==> LexLess(rhs, t)
  {
    if rhs == [] then
      (if t == [] then 0 else t[0] as int)
    else if t == [] then
      -(rhs[0] as int)
    else
      var n := Max(|t|, |rhs|);
      StrncmpSign(t, rhs, n);
      assert Take(t, n) == t && Take(rhs, n) == rhs;
      Strncmp(t, rhs, n)
  }

  /** equals(rhs, ignoreCase): lengths must agree; then exact equality
      (through compareTo) or equality after toupper on every byte. */
  method Equals(t: seq<char>, rhs: seq<char>, ignoreCase: bool) returns (r: bool)
    requires IsText(t) && IsText(rhs)
    ensures r <==> |t| == |rhs| && (if ignoreCase then UpperText(t) == UpperText(rhs) else t == rhs)
  {
    if |t| != |rhs| {
      return false;
    }
    if !ignoreCase {
      return CompareTo(t, rhs) == 0;
    }
    var i := 0;
    while i < |rhs|
      invariant 0 <= i <= |rhs|
      invariant forall k :: 0 <= k < i ==> ToUpper(t[k]) == ToUpper(rhs[k])
    {
      if ToUpper(t[i]) != ToUpper(rhs[i]) {
        assert UpperText(t)[i] != UpperText(rhs)[i];
        return false;
      }
      i := i + 1;
    }
    assert UpperText(t) == UpperText(rhs);
    return true;
  }
}
