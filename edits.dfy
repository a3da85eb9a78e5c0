/** What FixedString's editing operations do to the contents, stated on
    values: the class's methods are proved to leave exactly these texts in
    the buffer. `cap` is the capacity (N - 2). */
module Edits {
  import opened Chars
  import opened CStrings
  import opened Search

  /** `p` placed before position `i` of `t`. */
  function Splice(t: seq<char>, i: nat, p: seq<char>): (r: seq<char>)
    requires i <= |t|
    ensures |r| == |t| + |p|
  {
    t[..i] + p + t[i..]
  }

  /** `n` copies of `c`. */
  function Repeat(n: nat, c: char): (r: seq<char>)
    ensures |r| == n
    ensures forall i :: 0 <= i < n ==> r[i] == c
  {
    seq(n, _ => c)
  }

  /** remove(index, cnt): nothing for a zero count or a position past the
      contents; otherwise the min(cnt, length - index) bytes at `index` go. */
  function Erased(t: seq<char>, index: nat, cnt: nat): (r: seq<char>)
    ensures cnt == 0 || index >= |t| ==> r == t
    ensures cnt > 0 && index < |t| ==> |r| == |t| - Min(cnt, |t| - index)
    ensures cnt > 0 && index < |t| ==> r[..index] == t[..index] && r[index..] == t[index + Min(cnt, |t| - index)..]
  {
    if cnt == 0 || index >= |t| then t
    else t[..index] + t[index + Min(cnt, |t| - index)..]
  }

  /** remove(index): truncation to `index` bytes when that is shorter. */
  function Truncated(t: seq<char>, index: nat): (r: seq<char>)
    ensures |r| == Min(index, |t|)
    ensures r == t[..|r|]
  {
    if index < |t| then t[..index] else t
  }

  /** handle_insert refuses the call outright and leaves the contents as they are. */
  predicate InsertRefused(t: seq<char>, index: nat, data: seq<char>, cap: nat, allowPartial: bool)
  {
    index > |t| || data == [] || |t| >= cap || (!allowPartial && |data| > cap)
  }

  /** handle_insert(index, data, len, allowPartial) with capacity `cap`: the
      success flag and the new contents. Data that does not fit is cut to
      the free room; the flag says whether all of it went in. */
  function Inserted(t: seq<char>, index: nat, data: seq<char>, cap: nat, allowPartial: bool): (r: (bool, seq<char>))
    requires |t| <= cap
    ensures |r.1| <= cap
    ensures r.0 <==> index <= |t| && data != [] && |t| + |data| <= cap
    ensures r.0 ==> r.1 == Splice(t, index, data)
    ensures InsertRefused(t, index, data, cap, allowPartial) ==> r.1 == t
    ensures !InsertRefused(t, index, data, cap, allowPartial) && !r.0 ==>
      |r.1| == cap && r.1 == Splice(t, index, data[..cap - |t|])
  {
    if InsertRefused(t, index, data, cap, allowPartial) then (false, t)
    else
      var k := Min(cap - |t|, |data|);
      (k == |data|, Splice(t, index, data[..k]))
  }

  /** handle_insert(index, repeat, c): like inserting `repeat` copies of `c`,
      except that NUL is refused and partial copies are always allowed. */
  function InsertedRepeat(t: seq<char>, index: nat, repeat: nat, c: char, cap: nat): (r: (bool, seq<char>))
    requires |t| <= cap
    ensures c == NUL ==> r == (false, t)
    ensures c != NUL ==> r == Inserted(t, index, Repeat(repeat, c), cap, true)
  {
    if index > |t| || repeat == 0 || c == NUL || |t| >= cap then (false, t)
    else
      var k := Min(cap - |t|, repeat);
      assert Repeat(repeat, c)[..k] == Repeat(k, c);
      (k == repeat, Splice(t, index, Repeat(k, c)))
  }

  /** Removing what was just inserted gives the text back. */
  lemma ErasedSplice(t: seq<char>, i: nat, d: seq<char>)
    requires i <= |t| && d != []
    ensures Erased(Splice(t, i, d), i, |d|) == t
  {
    var u := Splice(t, i, d);
    assert u[..i] == t[..i] && u[i + |d|..] == t[i..];
    assert t[..i] + t[i..] == t;
  }

  /** Every non-overlapping occurrence of `s`, taken left to right, replaced
      by `r`; the text put in is never searched again. */
  function ReplaceAll(t: seq<char>, s: seq<char>, r: seq<char>): seq<char>
    requires s != []
    decreases |t|
  {
    if |t| < |s| then t
    else if t[..|s|] == s then r + ReplaceAll(t[|s|..], s, r)
    else [t[0]] + ReplaceAll(t[1..], s, r)
  }

  /** Bytes before the first occurrence pass through unchanged. */
  lemma {:induction false} ReplaceAllSkip(t: seq<char>, s: seq<char>, r: seq<char>, k: nat)
    requires s != [] && k <= |t|
    requires forall j :: 0 <= j < k ==> !MatchAt(t, s, j)
    ensures ReplaceAll(t, s, r) == t[..k] + ReplaceAll(t[k..], s, r)
  {
    if k > 0 {
      assert !MatchAt(t, s, 0);
      if |t| < |s| {
        assert ReplaceAll(t[k..], s, r) == t[k..];
        assert t[..k] + t[k..] == t;
      } else {
        assert t[..|s|] != s;
        var u := t[1..];
        forall j | 0 <= j < k - 1
          ensures !MatchAt(u, s, j)
        {
          MatchInTail(t, s, j);
        }
        ReplaceAllSkip(u, s, r, k - 1);
        TailSlices(t, k);
      }
    } else {
      assert t[k..] == t;
    }
  }

  /** An occurrence in `t[1..]` is one in `t`, one place further on. */
  lemma MatchInTail(t: seq<char>, s: seq<char>, j: nat)
    requires t != []
    ensures MatchAt(t[1..], s, j) <==> MatchAt(t, s, j + 1)
  {
    if j + |s| <= |t| - 1 {
      assert t[1..][j..j + |s|] == t[j + 1..j + 1 + |s|];
    }
  }

  /** `t[..k]` and `t[k..]` through the tail `t[1..]`. */
  lemma TailSlices(t: seq<char>, k: nat)
    requires 0 < k <= |t|
    ensures t[1..][k - 1..] == t[k..] && [t[0]] + t[1..][..k - 1] == t[..k]
  {
  }

  /** Without an occurrence, nothing is replaced. */
  lemma ReplaceAllNone(t: seq<char>, s: seq<char>, r: seq<char>)
    requires s != [] && FindFrom(t, s, 0) < 0
    ensures ReplaceAll(t, s, r) == t
  {
    ReplaceAllSkip(t, s, r, |t|);
    assert t[|t|..] == [];
    assert t[..|t|] == t;
  }

  /** The first occurrence, at `k`, is the first one replaced. */
  lemma ReplaceAllAt(t: seq<char>, s: seq<char>, r: seq<char>, k: int)
    requires s != [] && k == FindFrom(t, s, 0) && k >= 0
    ensures ReplaceAll(t, s, r) == t[..k] + r + ReplaceAll(t[k + |s|..], s, r)
  {
    ReplaceAllSkip(t, s, r, k);
    ReplaceAllAtMatch(t, s, r, k);
    Assoc(t[..k], r, ReplaceAll(t[k + |s|..], s, r));
  }

  /** At an occurrence at `k`, ReplaceAll of the text from `k` on puts `r`
      in its place. */
  lemma ReplaceAllAtMatch(t: seq<char>, s: seq<char>, r: seq<char>, k: int)
    requires s != [] && MatchAt(t, s, k)
    ensures ReplaceAll(t[k..], s, r) == r + ReplaceAll(t[k + |s|..], s, r)
  {
    MatchFront(t, s, k);
    ReplaceAllUnfold(t[k..], s, r, t[k + |s|..]);
  }

  /** An occurrence at `k` is the front of the text from `k` on. */
  lemma MatchFront(t: seq<char>, s: seq<char>, k: int)
    requires MatchAt(t, s, k)
    ensures |s| <= |t[k..]| && t[k..][..|s|] == s && t[k..][|s|..] == t[k + |s|..]
  {
  }

  /** One step of ReplaceAll at an occurrence at the front. */
  lemma ReplaceAllUnfold(u: seq<char>, s: seq<char>, r: seq<char>, after: seq<char>)
    requires s != [] && |s| <= |u| && u[..|s|] == s && after == u[|s|..]
    ensures ReplaceAll(u, s, r) == r + ReplaceAll(after, s, r)
  {
  }

  /** Concatenation is associative. */
  lemma Assoc(a: seq<char>, b: seq<char>, c: seq<char>)
    ensures a + (b + c) == a + b + c
  {
  }

  /** Regrouping a concatenation of four texts. */
  lemma Regroup(w: seq<char>, a: seq<char>, b: seq<char>, y: seq<char>)
    ensures w + (a + b + y) == w + a + b + y
  {
  }

  /** A replacement at least as long as the pattern never shortens the text. */
  lemma {:induction false} ReplaceAllLonger(t: seq<char>, s: seq<char>, r: seq<char>)
    requires s != [] && |r| >= |s|
    ensures |ReplaceAll(t, s, r)| >= |t|
    decreases |t|
  {
    if |t| >= |s| {
      if t[..|s|] == s {
        ReplaceAllLonger(t[|s|..], s, r);
      } else {
        ReplaceAllLonger(t[1..], s, r);
      }
    }
  }

  /** Replacing a pattern by itself changes nothing. */
  lemma {:induction false} ReplaceAllSame(t: seq<char>, s: seq<char>)
    requires s != []
    ensures ReplaceAll(t, s, s) == t
    decreases |t|
  {
    if |t| >= |s| {
      if t[..|s|] == s {
        ReplaceAllSame(t[|s|..], s);
        assert t == t[..|s|] + t[|s|..];
      } else {
        ReplaceAllSame(t[1..], s);
        assert t == [t[0]] + t[1..];
      }
    }
  }

  /** "aaa" with every "a" turned into "bb" is "bbbbbb": the inserted text is
      not searched again. */
  lemma ReplaceAllExample()
    ensures ReplaceAll("aaa", "a", "bb") == "bbbbbb"
  {
    assert "aaa"[..1] == "a" && "aaa"[1..] == "aa";
    assert "aa"[..1] == "a" && "aa"[1..] == "a";
    assert "a"[..1] == "a" && "a"[1..] == [];
  }

  /** With room to spare, replace("a", "bb") turns "aaa" into "bbbbbb". */
  lemma ReplacedExample()
    ensures Replaced("aaa", "a", "bb", 6) == "bbbbbb"
  {
    ReplaceAllExample();
    ReplacedFits("aaa", "a", "bb", 6);
  }

  /** replace(c, new_c) on the contents: every `c` becomes `newC`. */
  function SubstChar(t: seq<char>, c: char, newC: char): (r: seq<char>)
    ensures |r| == |t|
    ensures forall i :: 0 <= i < |t| ==> r[i] == (if t[i] == c then newC else t[i])
  {
    seq(|t|, i requires 0 <= i < |t| => if t[i] == c then newC else t[i])
  }

  /** Substituting one byte is replacing the one-byte pattern everywhere. */
  lemma {:induction false} SubstCharIsReplaceAll(t: seq<char>, c: char, newC: char)
    ensures SubstChar(t, c, newC) == ReplaceAll(t, [c], [newC])
    decreases |t|
  {
    if t != [] {
      SubstCharIsReplaceAll(t[1..], c, newC);
      assert SubstChar(t, c, newC) == [SubstChar(t, c, newC)[0]] + SubstChar(t[1..], c, newC);
      assert t[..1] == [t[0]];
    }
  }

  /** One round of `replace(s, new_s)`'s loop at the occurrence at `index`:
      handle_replace erases the match and inserts `r` there (the insert cuts
      `r` to the free room, or is refused when the buffer is full); an empty
      `r` leaves only the removal. */
  function ReplaceStep(t: seq<char>, s: seq<char>, r: seq<char>, cap: nat, index: nat): (u: seq<char>)
    requires s != [] && |t| <= cap && index < |t|
    ensures |u| <= cap
    ensures r == [] ==> |u| < |t|
  {
    var erased := Erased(t, index, |s|);
    if r == [] then erased
    else Inserted(erased, index, r, cap, true).1
  }

  /** The contents after `replace(s, new_s)`'s loop, from the occurrence at
      `index` on: one round, then the search resumes just after the inserted
      text, and the loop stops once that position is past the end. */
  function ReplaceRun(t: seq<char>, s: seq<char>, r: seq<char>, cap: nat, index: int): (u: seq<char>)
    requires s != [] && |t| <= cap
    ensures |u| <= cap
    decreases if index < 0 then 0 else cap + 1 - index, |t|
  {
    if index < 0 || index >= |t| then t
    else
      var t' := ReplaceStep(t, s, r, cap, index);
      if index + |r| >= |t'| then t'
      else ReplaceRun(t', s, r, cap, IndexOf(t', s, index + |r|))
  }

  /** replace(s, new_s): nothing for empty contents, an empty pattern, or a
      replacement equal to the pattern; otherwise the loop from the first
      occurrence. */
  function Replaced(t: seq<char>, s: seq<char>, r: seq<char>, cap: nat): (u: seq<char>)
    requires |t| <= cap
    ensures t == [] || s == [] || s == r ==> u == t
    ensures |u| <= cap
  {
    if t == [] || s == [] || (|s| == |r| && s == r) then t
    else ReplaceRun(t, s, r, cap, IndexOf(t, s, 0))
  }

  /** Searching `done + rest` from the end of `done` is searching `rest`. */
  lemma IndexOfAfter(done: seq<char>, rest: seq<char>, s: seq<char>)
    requires s != []
    ensures var k := FindFrom(rest, s, 0);
      IndexOf(done + rest, s, |done|) == if k < 0 then -1 else |done| + k
  {
    var t := done + rest;
    forall j | |done| <= j
      ensures MatchAt(t, s, j) <==> MatchAt(rest, s, j - |done|)
    {
      MatchAfter(done, rest, s, j);
    }
    var k := FindFrom(rest, s, 0);
    var i := IndexOf(t, s, |done|);
    if k >= 0 {
      MatchAfter(done, rest, s, |done| + k);
      MatchAfter(done, rest, s, i);
    }
  }

  /** An occurrence in `done + rest` at or after the end of `done` is one in `rest`. */
  lemma MatchAfter(done: seq<char>, rest: seq<char>, s: seq<char>, j: int)
    requires |done| <= j
    ensures MatchAt(done + rest, s, j) <==> MatchAt(rest, s, j - |done|)
  {
    if j + |s| <= |done + rest| {
      SliceAfter(done, rest, j, j + |s|);
    }
  }

  /** A slice of `x + y` lying inside `y`. */
  lemma SliceAfter(x: seq<char>, y: seq<char>, i: int, j: int)
    requires |x| <= i <= j <= |x| + |y|
    ensures (x + y)[i..j] == y[i - |x|..j - |x|]
  {
  }

  /** A prefix of `x + y` reaching into `y`. */
  lemma PrefixAfter(x: seq<char>, y: seq<char>, i: int)
    requires |x| <= i <= |x| + |y|
    ensures (x + y)[..i] == x + y[..i - |x|]
  {
  }


  /** The loop run over `t` = `done + rest` from the occurrence `i` found
      after `done`, when everything fits, yields `goal`: each match in `rest`
      is replaced and the search goes on after it. */
  lemma {:induction false} ReplaceRunFits(t: seq<char>, done: seq<char>, rest: seq<char>, s: seq<char>, r: seq<char>, cap: nat, i: int, goal: seq<char>)
    requires s != [] && t == done + rest && |t| <= cap && i == IndexOf(t, s, |done|)
    requires goal == done + ReplaceAll(rest, s, r) && |goal| <= cap
    ensures ReplaceRun(t, s, r, cap, i) == goal
    decreases |rest|
  {
    if FindFrom(rest, s, 0) < 0 {
      assert i == -1 by {
        IndexOfAfter(done, rest, s);
      }
      assert ReplaceAll(rest, s, r) == rest by {
        ReplaceAllNone(rest, s, r);
      }
    } else {
      var t', done', rest', index := ReplaceRunFirst(t, done, rest, s, r, cap);
      ReplaceRunUnfold(t, t', s, r, cap, index);
      if rest' != [] {
        ReplaceRunFits(t', done', rest', s, r, cap, IndexOf(t', s, index + |r|), done' + ReplaceAll(rest', s, r));
      }
    }
  }

  /** The first round of ReplaceRunFits: the first match in `rest` becomes
      `r`, leaving `t'` = `done' + rest'`, where `rest'` is what follows the
      match and the search goes on at the end of `done'`. */
  lemma ReplaceRunFirst(t: seq<char>, done: seq<char>, rest: seq<char>, s: seq<char>, r: seq<char>, cap: nat)
      returns (t': seq<char>, done': seq<char>, rest': seq<char>, index: nat)
    requires s != [] && t == done + rest && |t| <= cap
    requires |done + ReplaceAll(rest, s, r)| <= cap
    requires FindFrom(rest, s, 0) >= 0
    ensures IndexOf(t, s, |done|) == index && index < |t|
    ensures ReplaceStep(t, s, r, cap, index) == t'
    ensures t' == done' + rest' && |t'| <= cap && |rest'| < |rest|
    ensures |done'| == index + |r| && |t'| == index + |r| + |rest'|
    ensures done + ReplaceAll(rest, s, r) == done' + ReplaceAll(rest', s, r)
    ensures rest' == [] ==> t' == done + ReplaceAll(rest, s, r)
  {
    var k := FindFrom(rest, s, 0);
    index := |done| + k;
    done', rest' := done + rest[..k] + r, rest[k + |s|..];
    t' := done' + rest';
    assert IndexOf(t, s, |done|) == index by {
      IndexOfAfter(done, rest, s);
    }
    assert done + ReplaceAll(rest, s, r) == done' + ReplaceAll(rest', s, r) by {
      ReplaceAllAt(rest, s, r, k);
      Regroup(done, rest[..k], r, ReplaceAll(rest', s, r));
    }
    assert |t'| <= cap by {
      if |r| >= |s| {
        ReplaceAllLonger(rest', s, r);
      }
    }
    assert ReplaceStep(t, s, r, cap, index) == t' by {
      ReplaceStepAfter(t, done, rest, s, r, cap, k, index, t');
    }
    if rest' == [] {
      assert ReplaceAll(rest', s, r) == [];
    }
  }

  /** The round at a match `k` in `rest`, seen in `t` = `done + rest`. */
  lemma ReplaceStepAfter(t: seq<char>, done: seq<char>, rest: seq<char>, s: seq<char>, r: seq<char>, cap: nat, k: int, index: nat, t': seq<char>)
    requires s != [] && t == done + rest && |t| <= cap && |t| - |s| + |r| <= cap
    requires MatchAt(rest, s, k) && index == |done| + k
    requires t' == done + rest[..k] + r + rest[k + |s|..]
    ensures ReplaceStep(t, s, r, cap, index) == t'
  {
    assert MatchAt(t, s, index) by {
      SliceAfter(done, rest, index, index + |s|);
    }
    assert t[..index] == done + rest[..k] by {
      PrefixAfter(done, rest, index);
    }
    assert t[index + |s|..] == rest[k + |s|..] by {
      SliceAfter(done, rest, index + |s|, |t|);
    }
    ReplaceStepAt(t, s, r, cap, index);
  }


  /** A round at a match of `s` at `index` leaves `r` in its place when the
      result fits. */
  lemma ReplaceStepAt(t: seq<char>, s: seq<char>, r: seq<char>, cap: nat, index: nat)
    requires s != [] && |t| <= cap && MatchAt(t, s, index) && |t| - |s| + |r| <= cap
    ensures ReplaceStep(t, s, r, cap, index) == t[..index] + r + t[index + |s|..]
  {
    var erased := Erased(t, index, |s|);
    assert Min(|s|, |t| - index) == |s|;
    assert erased == t[..index] + t[index + |s|..];
    if r != [] {
      var u := Inserted(erased, index, r, cap, true);
      assert u.0;
      assert erased[..index] == t[..index] && erased[index..] == t[index + |s|..];
    }
  }

  /** One round of ReplaceRun, whose step left `t'`. */
  lemma ReplaceRunUnfold(t: seq<char>, t': seq<char>, s: seq<char>, r: seq<char>, cap: nat, index: nat)
    requires s != [] && |t| <= cap && index < |t| && ReplaceStep(t, s, r, cap, index) == t'
    ensures index + |r| >= |t'| ==> ReplaceRun(t, s, r, cap, index) == t'
    ensures index + |r| < |t'| ==> ReplaceRun(t, s, r, cap, index) == ReplaceRun(t', s, r, cap, IndexOf(t', s, index + |r|))
  {
  }

  /** The run stops once the search position is off the text. */
  lemma ReplaceRunStops(t: seq<char>, s: seq<char>, r: seq<char>, cap: nat, index: int)
    requires s != [] && |t| <= cap && (index < 0 || index >= |t|)
    ensures ReplaceRun(t, s, r, cap, index) == t
  {
  }

  /** A round of ReplaceRun that goes on searching at `nx`: the run from
      `nx` over the new text gives the same result, and the search position
      moves forward or, for an empty replacement, the text gets shorter. */
  lemma ReplaceRunNext(t: seq<char>, t': seq<char>, s: seq<char>, r: seq<char>, cap: nat, index: nat, nx: int)
    requires s != [] && |t| <= cap && index < |t| && ReplaceStep(t, s, r, cap, index) == t'
    requires index + |r| < |t'| && nx == IndexOf(t', s, index + |r|)
    ensures ReplaceRun(t, s, r, cap, index) == ReplaceRun(t', s, r, cap, nx)
    ensures nx < |t'| <= cap
    ensures nx < 0 || index < nx || (r == [] && nx == index && |t'| < |t|)
  {
    ReplaceRunUnfold(t, t', s, r, cap, index);
  }

  /** With room for the result, replace(s, new_s) replaces every
      non-overlapping occurrence of `s`, left to right, by `new_s`. */
  lemma ReplacedFits(t: seq<char>, s: seq<char>, r: seq<char>, cap: nat)
    requires s != [] && |t| <= cap && |ReplaceAll(t, s, r)| <= cap
    ensures Replaced(t, s, r, cap) == ReplaceAll(t, s, r)
  {
    if t == [] {
      assert ReplaceAll(t, s, r) == [];
    } else if |s| == |r| && s == r {
      ReplaceAllSame(t, s);
    } else {
      ReplaceRunFromStart(t, s, r, cap, IndexOf(t, s, 0), ReplaceAll(t, s, r));
    }
  }

  /** The run from the first occurrence replaces every occurrence when the
      result fits. */
  lemma ReplaceRunFromStart(t: seq<char>, s: seq<char>, r: seq<char>, cap: nat, i: int, goal: seq<char>)
    requires s != [] && |t| <= cap && i == IndexOf(t, s, 0)
    requires goal == ReplaceAll(t, s, r) && |goal| <= cap
    ensures ReplaceRun(t, s, r, cap, i) == goal
  {
    assert [] + t == t;
    assert [] + goal == goal;
    ReplaceRunFits(t, [], t, s, r, cap, i, [] + goal);
  }

  /** Every byte of `t` is white space. */
  predicate AllSpace(t: seq<char>)
  {
    forall i :: 0 <= i < |t| ==> IsSpace(t[i])
  }

  /** The number of leading white-space bytes (trim's forward walk). */
  function LeadingSpace(t: seq<char>): (n: nat)
    ensures n <= |t| && AllSpace(t[..n])
    ensures n == |t| || !IsSpace(t[n])
  {
    if t != [] && IsSpace(t[0]) then
      var n := 1 + LeadingSpace(t[1..]);
      assert t[..n] == [t[0]] + t[1..][..n - 1];
      n
    else 0
  }

  /** The number of trailing white-space bytes (trim's backward walk). */
  function TrailingSpace(t: seq<char>): (n: nat)
    ensures n <= |t| && AllSpace(t[|t| - n..])
    ensures n == |t| || !IsSpace(t[|t| - n - 1])
  {
    if t != [] && IsSpace(t[|t| - 1]) then
      var n := 1 + TrailingSpace(t[..|t| - 1]);
      SpaceSuffixExtend(t, n);
      n
    else 0
  }

  /** A white-space suffix of `t` without its last byte grows by that byte
      when it is white space too. */
  lemma SpaceSuffixExtend(t: seq<char>, n: nat)
    requires 1 <= n <= |t| && IsSpace(t[|t| - 1])
    requires AllSpace(t[..|t| - 1][|t| - n..])
    ensures AllSpace(t[|t| - n..])
  {
    var u, v := t[..|t| - 1][|t| - n..], t[|t| - n..];
    forall i | 0 <= i < n
      ensures IsSpace(v[i])
    {
      if i < n - 1 {
        assert v[i] == u[i];
      }
    }
  }

  /** A white-space suffix of `t` without its first byte is a white-space
      suffix of `t` without its last byte. */
  lemma SpaceSuffixShrink(t: seq<char>, m: nat)
    requires 1 <= m <= |t| && AllSpace(t[|t| - m..])
    ensures AllSpace(t[..|t| - 1][|t| - m..])
  {
    var u, v := t[..|t| - 1][|t| - m..], t[|t| - m..];
    forall i | 0 <= i < m - 1
      ensures IsSpace(u[i])
    {
      assert u[i] == v[i];
    }
  }

  /** trim(): the contents without leading and trailing white space. */
  function Trimmed(t: seq<char>): (r: seq<char>)
    ensures LeadingSpace(t) + |r| <= |t|
    ensures r == t[LeadingSpace(t)..LeadingSpace(t) + |r|]
    ensures AllSpace(t[LeadingSpace(t) + |r|..])
    ensures r == [] || (!IsSpace(r[0]) && !IsSpace(r[|r| - 1]))
  {
    var u := t[LeadingSpace(t)..];
    u[..|u| - TrailingSpace(u)]
  }

  /** Padding with white space on both sides is exactly what trim removes. */
  lemma TrimmedPadding(w1: seq<char>, x: seq<char>, w2: seq<char>)
    requires AllSpace(w1) && AllSpace(w2)
    requires x == [] || (!IsSpace(x[0]) && !IsSpace(x[|x| - 1]))
    ensures Trimmed(w1 + x + w2) == x
  {
    var t := w1 + x + w2;
    var lead := LeadingSpace(t);
    if x == [] {
      assert t == w1 + w2;
      assert AllSpace(t);
      assert lead == |t|;
    } else {
      assert t[|w1|] == x[0];
      assert lead == |w1|;
      var u := t[lead..];
      assert u == x + w2;
      var trail := TrailingSpace(u);
      assert u[|x| - 1] == x[|x| - 1];
      assert trail == |w2|;
      assert u[..|u| - trail] == x;
    }
  }

  /** trim() on " ab\t" leaves "ab". */
  lemma TrimmedExample()
    ensures Trimmed(" ab\t") == "ab"
  {
    assert " ab\t" == " " + "ab" + "\t";
    TrimmedPadding(" ", "ab", "\t");
  }

  /** Trimming twice is trimming once. */
  lemma TrimmedIdempotent(t: seq<char>)
    ensures Trimmed(Trimmed(t)) == Trimmed(t)
  {
    var r := Trimmed(t);
    TrimmedPadding([], r, []);
    assert [] + r + [] == r;
  }

  /** The walk that stops at the first byte that is not white space finds
      exactly LeadingSpace. */
  lemma {:induction false} LeadingSpaceIs(t: seq<char>, n: nat)
    requires n <= |t| && AllSpace(t[..n]) && (n == |t| || !IsSpace(t[n]))
    ensures LeadingSpace(t) == n
    decreases n
  {
    if n > 0 {
      assert IsSpace(t[..n][0]);
      assert t[1..][..n - 1] == t[..n][1..];
      LeadingSpaceIs(t[1..], n - 1);
    }
  }

  /** The walk back that stops at the last byte that is not white space finds
      exactly TrailingSpace. */
  lemma {:induction false} TrailingSpaceIs(t: seq<char>, m: nat)
    requires m <= |t| && AllSpace(t[|t| - m..]) && (m == |t| || !IsSpace(t[|t| - m - 1]))
    ensures TrailingSpace(t) == m
    decreases m
  {
    if m > 0 {
      assert IsSpace(t[|t| - m..][m - 1]);
      var u := t[..|t| - 1];
      SpaceSuffixShrink(t, m);
      assert |u| - (m - 1) == |t| - m;
      assert m - 1 < |u| ==> u[|u| - (m - 1) - 1] == t[|t| - m - 1];
      TrailingSpaceIs(u, m - 1);
    }
  }

  /** trim()'s two walks: a first byte that is not space at `start` and a
      last one before `end` delimit exactly what Trimmed keeps. */
  lemma TrimmedIs(t: seq<char>, start: nat, end: nat)
    requires start <= end <= |t|
    requires AllSpace(t[..start]) && (start == |t| || !IsSpace(t[start]))
    requires AllSpace(t[end..]) && (end == start || !IsSpace(t[end - 1]))
    ensures Trimmed(t) == t[start..end]
  {
    LeadingSpaceIs(t, start);
    var u := t[start..];
    SliceFrom(t, u, start, end);
    TrailingSpaceIs(u, |t| - end);
    TrimmedUnfold(t, u, start, |t| - end);
  }

  /** TrimmedIs with the white space on either side stated byte by byte. */
  lemma TrimmedBetween(t: seq<char>, start: nat, end: nat)
    requires start <= end <= |t|
    requires forall i :: 0 <= i < start ==> IsSpace(t[i])
    requires start == |t| || !IsSpace(t[start])
    requires forall i :: end <= i < |t| ==> IsSpace(t[i])
    requires end == start || !IsSpace(t[end - 1])
    ensures Trimmed(t) == t[start..end]
  {
    assert AllSpace(t[..start]) by {
      var w := t[..start];
      forall i | 0 <= i < |w|
        ensures IsSpace(w[i])
      {
        assert w[i] == t[i];
      }
    }
    assert AllSpace(t[end..]) by {
      var w := t[end..];
      forall i | 0 <= i < |w|
        ensures IsSpace(w[i])
      {
        assert w[i] == t[end + i];
      }
    }
    TrimmedIs(t, start, end);
  }

  /** The text `u` from `start` on, seen from `end` on and up to `end`. */
  lemma SliceFrom(t: seq<char>, u: seq<char>, start: nat, end: nat)
    requires start <= end <= |t| && u == t[start..]
    ensures |u| - (|t| - end) == end - start
    ensures u[end - start..] == t[end..] && u[..end - start] == t[start..end]
    ensures end > start ==> u[end - start - 1] == t[end - 1]
  {
  }

  /** Trimmed in terms of the two walks' counts. */
  lemma TrimmedUnfold(t: seq<char>, u: seq<char>, lead: nat, trail: nat)
    requires lead == LeadingSpace(t) && u == t[lead..] && trail == TrailingSpace(u)
    ensures Trimmed(t) == u[..|u| - trail]
  {
  }

  /** Appending with handle_insert at the end: the flag says whether all of
      `data` fitted, and the contents gain as much of `data` as there is
      room for (nothing when `data` is empty or the buffer full). */
  lemma InsertedAtEnd(t: seq<char>, data: seq<char>, cap: nat)
    requires |t| <= cap
    ensures Inserted(t, |t|, data, cap, true) ==
      (data != [] && |t| + |data| <= cap, t + data[..Min(|data|, cap - |t|)])
  {
    var k := Min(|data|, cap - |t|);
    if data == [] || |t| >= cap {
      assert data[..k] == [];
      assert t + data[..k] == t;
    } else {
      assert Min(cap - |t|, |data|) == k;
      assert t[..|t|] == t && t[|t|..] == [];
      assert Splice(t, |t|, data[..k]) == t + data[..k];
    }
  }

  /** Appending copies of `c` at the end: as many as there is room for. */
  lemma InsertedRepeatAtEnd(t: seq<char>, repeat: nat, c: char, cap: nat)
    requires |t| <= cap && c != NUL
    ensures InsertedRepeat(t, |t|, repeat, c, cap) ==
      (repeat > 0 && |t| + repeat <= cap, t + Repeat(Min(repeat, cap - |t|), c))
  {
    InsertedAtEnd(t, Repeat(repeat, c), cap);
    assert Repeat(repeat, c)[..Min(repeat, cap - |t|)] == Repeat(Min(repeat, cap - |t|), c);
  }

  /** setCharAt(index, c): nothing past the end; writing NUL cuts the text
      at `index`; any other byte replaces the one at `index`. */
  function CharSet(t: seq<char>, index: nat, c: char): (r: seq<char>)
    ensures |r| == if index < |t| && c == NUL then index else |t|
    ensures forall k :: 0 <= k < |r| && k != index ==> r[k] == t[k]
  {
    if index >= |t| then t
    else if c == NUL then t[..index]
    else t[index := c]
  }

  /** Reading back with charAt: the byte just set, NUL at the cut, and every
      other position as before. */
  lemma CharSetCharAt(t: seq<char>, index: nat, c: char, k: nat)
    requires IsText(t) && (c == NUL || IsChar(c))
    ensures IsText(CharSet(t, index, c))
    ensures index < |t| && k == index ==> CharAt(CharSet(t, index, c), k) == c
    ensures k != index ==> CharAt(CharSet(t, index, c), k) == CharAt(t, k) || (c == NUL && index < k)
  {
  }

  /** force_concat(c): append `c` when there is room; on a full buffer put
      `c` in place of the last byte. NUL is refused, as concat refuses it. */
  function ForcedConcat(t: seq<char>, c: char, cap: nat): (r: (bool, seq<char>))
    requires 1 <= cap && |t| <= cap
    ensures c == NUL ==> r == (false, t)
    ensures c != NUL ==> r.0 && |r.1| == Min(|t| + 1, cap) && r.1[|r.1| - 1] == c
    ensures c != NUL ==> r.1[..|r.1| - 1] == t[..|r.1| - 1]
  {
    if |t| < cap then
      assert c != NUL ==> InsertedRepeat(t, |t|, 1, c, cap) == (true, t + Repeat(1, c)) by {
        if c != NUL {
          InsertedRepeatAtEnd(t, 1, c, cap);
        }
      }
      InsertedRepeat(t, |t|, 1, c, cap)
    else if c == NUL then (false, t)
    else (true, t[..|t| - 1] + [c])
  }

  /** force_concat(c) as written: on a full buffer the byte is stored at
      `length() - 1` whatever it is and the length stays at the capacity.
      The result is the flag and the `length()` bytes before the terminator. */
  function ForcedConcatAsWritten(t: seq<char>, c: char, cap: nat): (r: (bool, seq<char>))
    requires 1 <= cap && |t| <= cap
    ensures |t| == cap ==> r == (true, t[..|t| - 1] + [c])
    ensures |t| < cap || c != NUL ==> r == ForcedConcat(t, c, cap)
  {
    if |t| < cap then InsertedRepeat(t, |t|, 1, c, cap)
    else (true, t[..|t| - 1] + [c])
  }

  /** The input that shows it: force_concat('\0') on a full buffer reports
      success but leaves a NUL inside the counted length, so length() and
      strlen(c_str()) disagree. */
  lemma ForcedConcatNulCounterexample()
    ensures ForcedConcatAsWritten("abcdef", NUL, 6) == (true, "abcde" + [NUL])
    ensures !IsText(ForcedConcatAsWritten("abcdef", NUL, 6).1)
    ensures ForcedConcat("abcdef", NUL, 6) == (false, "abcdef")
  {
    assert "abcdef"[..5] == "abcde";
    assert ForcedConcatAsWritten("abcdef", NUL, 6).1[5] == NUL;
  }
}
