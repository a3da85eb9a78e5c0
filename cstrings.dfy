/** The C string routines FixedString leans on (strncmp, strstr, strchr,
    strrchr), modelled on NUL-free texts: a C string is its text followed by
    one NUL, so a routine that stops at the terminator stops at the end of
    the sequence. */
module CStrings {
  import opened Chars

  /** The first `n` bytes of `t`, or all of `t` when it is shorter. */
  function Take(t: seq<char>, n: nat): seq<char>
  {
    if n < |t| then t[..n] else t
  }

  /** Lexicographic order on byte strings: a proper prefix sorts first. */
  predicate LexLess(a: seq<char>, b: seq<char>)
  {
    if a == [] then b != []
    else if b == [] then false
    else a[0] < b[0] || (a[0] == b[0] && LexLess(a[1..], b[1..]))
  }

  /** strncmp(a, b, n): compares at most `n` bytes of the two C strings and
      stops after a terminator common to both. The C standard fixes only the
      sign of the result; the value here is the classic byte difference. */
  function Strncmp(a: seq<char>, b: seq<char>, n: nat): int
  {
    if n == 0 then 0
    else
      var x := if a == [] then 0 else a[0] as int;
      var y := if b == [] then 0 else b[0] as int;
      if x != y then x - y
      else if x == 0 then 0
      else Strncmp(a[1..], b[1..], n - 1)
  }

  /** The sign of strncmp is the lexicographic order of the first `n` bytes. */
  lemma {:induction false} StrncmpSign(a: seq<char>, b: seq<char>, n: nat)
    requires IsText(a) && IsText(b)
    ensures Strncmp(a, b, n) == 0 <==> Take(a, n) == Take(b, n)
    ensures Strncmp(a, b, n) < 0 <==> LexLess(Take(a, n), Take(b, n))
    ensures Strncmp(a, b, n) > 0 <==> LexLess(Take(b, n), Take(a, n))
  {
    if n == 0 {
      assert Take(a, n) == [] && Take(b, n) == [];
    } else if a == [] || b == [] {
      assert a == [] ==> Take(a, n) == [];
      assert b == [] ==> Take(b, n) == [];
      assert a != [] ==> Take(a, n) != [];
      assert b != [] ==> Take(b, n) != [];
    } else {
      var ta, tb := Take(a, n), Take(b, n);
      assert ta[0] == a[0] && tb[0] == b[0];
      assert ta[1..] == Take(a[1..], n - 1);
      assert tb[1..] == Take(b[1..], n - 1);
      assert IsChar(a[0]) && IsChar(b[0]);
      if a[0] == b[0] {
        StrncmpSign(a[1..], b[1..], n - 1);
        assert ta == [ta[0]] + ta[1..];
        assert tb == [tb[0]] + tb[1..];
      }
    }
  }

  /** LexLess is a strict total order. */
  lemma {:induction false} LexLessTotal(a: seq<char>, b: seq<char>)
    ensures a == b || LexLess(a, b) || LexLess(b, a)
    ensures !(LexLess(a, b) && LexLess(b, a))
    ensures !LexLess(a, a)
  {
    if a != [] {
      LexLessTotal(a[1..], if b == [] then [] else b[1..]);
      if b != [] && a[0] == b[0] && a[1..] == b[1..] {
        assert a == [a[0]] + a[1..] && b == [b[0]] + b[1..];
      }
    }
  }

  lemma {:induction false} LexLessTransitive(a: seq<char>, b: seq<char>, c: seq<char>)
    requires LexLess(a, b) && LexLess(b, c)
    ensures LexLess(a, c)
  {
    if a != [] && a[0] == b[0] && b[0] == c[0] {
      LexLessTransitive(a[1..], b[1..], c[1..]);
    }
  }

  /** `s` occurs in `t` at position `k`. */
  predicate MatchAt(t: seq<char>, s: seq<char>, k: int)
  {
    0 <= k && k + |s| <= |t| && t[k..k + |s|] == s
  }

  /** strstr(t + i, s) for a non-empty `s`: the first position at or after
      `i` where `s` occurs, or -1. */
  function FindFrom(t: seq<char>, s: seq<char>, i: nat): (r: int)
    requires s != []
    ensures r == -1 || (i <= r && MatchAt(t, s, r))
    ensures r == -1 ==> forall k :: i <= k ==> !MatchAt(t, s, k)
    ensures forall k :: i <= k < r ==> !MatchAt(t, s, k)
    decreases |t| - i
  {
    if i + |s| > |t| then -1
    else if t[i..i + |s|] == s then i
    else FindFrom(t, s, i + 1)
  }

  /** A one-byte pattern matches exactly where that byte stands. */
  lemma MatchOne(t: seq<char>, c: char, k: int)
    ensures MatchAt(t, [c], k) <==> 0 <= k < |t| && t[k] == c
  {
    if 0 <= k < |t| {
      assert t[k..k + 1] == [t[k]];
    }
  }

  /** strrchr(t, c) for c != NUL: the last position of `c` in `t`, or -1. */
  function LastCharIn(t: seq<char>, c: char): (r: int)
    ensures -1 <= r < |t|
    ensures r >= 0 ==> t[r] == c
    ensures forall k :: r < k < |t| ==> t[k] != c
  {
    if t == [] then -1
    else if t[|t| - 1] == c then |t| - 1
    else LastCharIn(t[..|t| - 1], c)
  }
}
