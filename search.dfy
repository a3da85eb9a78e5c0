/** The read-only queries of FixedString, as functions of its contents `t`
    (the bytes before the terminator). Positions and counts are C++
    `unsigned int` values; NPOS is `(unsigned int)-1`. */
module Search {
  import opened Chars
  import opened CStrings
  import opened Options

  const NPOS: nat := 0xFFFF_FFFF

  /** 2^32: arithmetic on `unsigned int` wraps modulo this. */
  const SIZE_MOD: nat := 0x1_0000_0000

  /** charAt: the byte at `index`, or NUL outside the contents. */
  function CharAt(t: seq<char>, index: nat): (r: char)
    requires IsText(t)
    ensures r == NUL <==> index >= |t|
    ensures index < |t| ==> r == t[index]
  {
    if index < |t| then t[index] else NUL
  }

  /** startsWith(s, offset), with the bound check done in unbounded arithmetic. */
  function StartsWith(t: seq<char>, s: seq<char>, offset: nat): (r: bool)
    requires IsText(t) && IsText(s)
    ensures r <==> s != [] && MatchAt(t, s, offset)
  {
    if |s| == 0 || offset + |s| > |t| then false
    else
      StrncmpSign(t[offset..], s, |s|);
      assert Take(t[offset..], |s|) == t[offset..offset + |s|];
      Strncmp(t[offset..], s, |s|) == 0
  }

  /** startsWith(s, offset) exactly as written: `offset + rhs_len` is an
      `unsigned int` sum and wraps. None stands for a comparison whose window
      lies outside the buffer (an out-of-bounds read). */
  function StartsWithAsWritten(t: seq<char>, s: seq<char>, offset: nat): (r: Option<bool>)
    requires IsText(t) && IsText(s)
    requires offset < SIZE_MOD && |s| < SIZE_MOD
    ensures r == None <==> s != [] && (offset + |s|) % SIZE_MOD <= |t| < offset + |s|
  {
    if |s| == 0 || (offset + |s|) % SIZE_MOD > |t| then Some(false)
    else if offset + |s| > |t| then None
    else Some(Strncmp(t[offset..], s, |s|) == 0)
  }

  /** Without wrap-around the guard as written decides what StartsWith decides. */
  lemma StartsWithAsWrittenAgrees(t: seq<char>, s: seq<char>, offset: nat)
    requires IsText(t) && IsText(s)
    requires offset + |s| < SIZE_MOD
    ensures StartsWithAsWritten(t, s, offset) == Some(StartsWith(t, s, offset))
  {
  }

  /** The input that shows the wrap: offset 0xFFFFFFFF with a one-byte
      pattern passes the guard and the comparison starts outside "abc". */
  lemma StartsWithWrapCounterexample()
    ensures StartsWithAsWritten("abc", "a", NPOS) == None
    ensures !StartsWith("abc", "a", NPOS)
  {
    assert (NPOS + 1) % SIZE_MOD == 0;
  }

  /** endsWith(s): `s` is a non-empty suffix of the contents. */
  function EndsWith(t: seq<char>, s: seq<char>): (r: bool)
    requires IsText(t) && IsText(s)
    ensures r <==> s != [] && |s| <= |t| && t[|t| - |s|..] == s
  {
    if |s| == 0 || |s| > |t| then false
    else
      StrncmpSign(t[|t| - |s|..], s, |s|);
      Strncmp(t[|t| - |s|..], s, |s|) == 0
  }

  /** indexOf(c, start): strchr from `start`, which finds the terminator when
      `c` is NUL, so indexOf('\0') is the length. */
  function IndexOfChar(t: seq<char>, c: char, start: nat): (r: int)
    requires IsText(t)
    ensures start >= |t| ==> r == -1
    ensures start < |t| && c == NUL ==> r == |t|
    ensures start < |t| && c != NUL ==> r == -1 || (start <= r < |t| && t[r] == c)
    ensures start < |t| && c != NUL ==> forall k :: start <= k < |t| && (r == -1 || k < r) ==> t[k] != c
  {
    if start >= |t| then -1
    else
      var r := FindFrom(t + [NUL], [c], start);
      MatchOne(t + [NUL], c, r);
      assert forall k :: start <= k < |t| ==> t[k] == c ==> MatchAt(t + [NUL], [c], k) by {
        forall k | start <= k < |t| ensures t[k] == c ==> MatchAt(t + [NUL], [c], k) {
          assert (t + [NUL])[k] == t[k];
          MatchOne(t + [NUL], c, k);
        }
      }
      assert c == NUL ==> r == |t| by {
        if c == NUL {
          MatchOne(t + [NUL], c, |t|);
        }
      }
      r
  }

  /** indexOf(s, start): the first occurrence of `s` at or after `start`, or -1.
      An empty pattern is never found. */
  function IndexOf(t: seq<char>, s: seq<char>, start: nat): (r: int)
    ensures s == [] ==> r == -1
    ensures r == -1 ==> s == [] || forall k :: start <= k ==> !MatchAt(t, s, k)
    ensures r != -1 ==> start <= r && MatchAt(t, s, r)
    ensures forall k :: start <= k < r ==> !MatchAt(t, s, k)
  {
    if start >= |t| then -1
    else if |s| == 0 || start + |s| > |t| then -1
    else FindFrom(t, s, start)
  }

  /** lastIndexOf(c): strrchr, refused for the empty string and for NUL. */
  function LastIndexOfChar(t: seq<char>, c: char): (r: int)
    ensures r == -1 <==> c == NUL || forall k :: 0 <= k < |t| ==> t[k] != c
    ensures r != -1 ==> 0 <= r < |t| && t[r] == c && forall k :: r < k < |t| ==> t[k] != c
  {
    if t == [] || c == NUL then -1
    else LastCharIn(t, c)
  }

  /** lastIndexOf(c, from): the last `c` at a position <= `from`. */
  function LastIndexOfCharFrom(t: seq<char>, c: char, from: nat): (r: int)
    requires |t| < NPOS && from <= NPOS
    ensures r == -1 <==> c == NUL || forall k :: 0 <= k < |t| && k <= from ==> t[k] != c
    ensures r != -1 ==> 0 <= r <= from && r < |t| && t[r] == c
    ensures r != -1 ==> forall k :: r < k < |t| && k <= from ==> t[k] != c
  {
    if from >= |t| then LastIndexOfChar(t, c)
    else if t == [] || c == NUL then -1
    else LastIndexOfChar(Substring(t, 0, from + 1), c)
  }

  /** lastIndexOf(s, from): the greatest start of an occurrence of `s` that is
      <= min(from, length - 1), or -1. Walks the text with strstr as the
      source does. */
  method LastIndexOf(t: seq<char>, s: seq<char>, from: nat) returns (found: int)
    ensures found == -1 <==> s == [] || forall k :: 0 <= k <= from ==> !MatchAt(t, s, k)
    ensures found != -1 ==> 0 <= found <= from && MatchAt(t, s, found)
    ensures s != [] ==> forall k :: found < k <= from ==> !MatchAt(t, s, k)
  {
    if |t| == 0 {
      return -1;
    }
    if |s| == 0 || |s| > |t| {
      return -1;
    }
    var last := if from >= |t| then |t| - 1 else from;
    found := -1;
    var p := 0;
    while p <= last
      invariant found < p && found <= last
      invariant found != -1 ==> 0 <= found && MatchAt(t, s, found)
      invariant forall k :: found < k < p && k <= last ==> !MatchAt(t, s, k)
      decreases last - p
    {
      var q := FindFrom(t, s, p);
      if q < 0 {
        break;
      }
      if q <= last {
        found := q;
      }
      p := q + 1;
    }
  }

  /** substring(left, right): swaps the bounds when left > right (unless right
      is NPOS, which means "to the end"), clamps right to the length and
      yields the half-open range [left, right); empty when left is past the end. */
  function Substring(t: seq<char>, left: nat, right: nat): (r: seq<char>)
    requires |t| < NPOS && left <= NPOS && right <= NPOS
    ensures |r| <= |t|
    ensures left < |t| && left <= right ==> r == t[left..Min(right, |t|)]
    ensures right == NPOS ==> r == (if left < |t| then t[left..] else [])
    ensures left >= |t| && right >= |t| ==> r == []
  {
    var (lo, hi) := if right == NPOS then (left, |t|) else if left > right then (right, left) else (left, right);
    if lo >= |t| then []
    else t[lo..Min(hi, |t|)]
  }

  /** Apart from NPOS, the order of the two bounds does not matter. */
  lemma SubstringSwap(t: seq<char>, left: nat, right: nat)
    requires |t| < NPOS && left <= NPOS && right < NPOS
    ensures Substring(t, left, right) == Substring(t, right, left)
  {
  }

  /** toCharArray(buf, bufsize, index): the bytes written at the front of
      `buf`. Nothing for an empty buffer; a lone terminator when `index` is
      past the contents; otherwise as much of the contents from `index` on as
      fits before a terminator. */
  function CharArray(t: seq<char>, bufsize: nat, index: nat): (r: seq<char>)
    ensures |r| <= bufsize
    ensures r == [] <==> bufsize == 0
    ensures r != [] ==> r[|r| - 1] == NUL
  {
    if bufsize == 0 then []
    else if index >= |t| then [NUL]
    else
      var n := Min(bufsize - 1, |t| - index);
      t[index..index + n] + [NUL]
  }

  /** The C string toCharArray writes is substring(index, index + bufsize - 1). */
  lemma CharArrayIsSubstring(t: seq<char>, bufsize: nat, index: nat)
    requires |t| < NPOS && bufsize > 0 && index + bufsize - 1 <= NPOS
    ensures CharArray(t, bufsize, index) == Substring(t, index, index + bufsize - 1) + [NUL]
  {
  }
}
