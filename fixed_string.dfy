/** The class FixedString<N>: a NUL-terminated text kept in a fixed array of
    N - 1 bytes with a cached length, edited in place. Its queries are the
    functions of Search, Compare and Numeric applied to Contents(); its edits
    are proved to leave exactly the texts that Edits describes. */
module FixedStrings {
  import opened Chars
  import opened Options
  import opened Search
  import opened Numeric
  import opened Edits

  /** `s` after memmove(s + dst, s + src, n): the `n` bytes that were at
      `src` now sit at `dst`; every other byte is as it was. */
  function Moved(s: seq<char>, dst: nat, src: nat, n: nat): (r: seq<char>)
    requires dst + n <= |s| && src + n <= |s|
    ensures |r| == |s|
  {
    s[..dst] + s[src..src + n] + s[dst + n..]
  }

  /** `s` after memcpy(s + at, data, |data|). */
  function Copied(s: seq<char>, at: nat, data: seq<char>): (r: seq<char>)
    requires at + |data| <= |s|
    ensures |r| == |s|
  {
    s[..at] + data + s[at + |data|..]
  }

  /** memmove: copying forwards is safe when moving down, backwards when
      moving up, so overlapping ranges are handled. */
  method MemMove(a: array<char>, dst: nat, src: nat, n: nat)
    requires dst + n <= a.Length && src + n <= a.Length
    modifies a
    ensures a[..] == Moved(old(a[..]), dst, src, n)
  {
    ghost var s := a[..];
    if dst <= src {
      MoveDown(a, dst, src, n);
    } else {
      MoveUp(a, dst, src, n);
    }
    forall i | 0 <= i < a.Length
      ensures a[..][i] == Moved(s, dst, src, n)[i]
    {
      MovedAt(s, dst, src, n, i);
    }
  }

  /** One byte of Moved. */
  lemma MovedAt(s: seq<char>, dst: nat, src: nat, n: nat, i: nat)
    requires dst + n <= |s| && src + n <= |s| && i < |s|
    ensures Moved(s, dst, src, n)[i] == if dst <= i < dst + n then s[src + (i - dst)] else s[i]
  {
  }

  /** The forward copy of memmove, for a destination below the source. */
  method MoveDown(a: array<char>, dst: nat, src: nat, n: nat)
    requires dst <= src && src + n <= a.Length
    modifies a
    ensures forall i :: 0 <= i < a.Length ==>
      a[i] == if dst <= i < dst + n then old(a[src + (i - dst)]) else old(a[i])
  {
    var k := 0;
    while k < n
      invariant 0 <= k <= n
      invariant forall i :: 0 <= i < a.Length ==>
        a[i] == if dst <= i < dst + k then old(a[src + (i - dst)]) else old(a[i])
    {
      a[dst + k] := a[src + k];
      k := k + 1;
    }
  }

  /** The backward copy of memmove, for a destination above the source. */
  method MoveUp(a: array<char>, dst: nat, src: nat, n: nat)
    requires src < dst && dst + n <= a.Length
    modifies a
    ensures forall i :: 0 <= i < a.Length ==>
      a[i] == if dst <= i < dst + n then old(a[src + (i - dst)]) else old(a[i])
  {
    var k := n;
    while k > 0
      invariant 0 <= k <= n
      invariant forall i :: 0 <= i < a.Length ==>
        a[i] == if dst + k <= i < dst + n then old(a[src + (i - dst)]) else old(a[i])
    {
      k := k - 1;
      a[dst + k] := a[src + k];
    }
  }

  /** toCharArray's copy of the text `t` into `a`: as much of `t` from
      `index` on as fits before a terminator. */
  method WriteCharArray(a: array<char>, t: seq<char>, bufsize: nat, index: nat)
    requires bufsize <= a.Length
    modifies a
    ensures a[..] == Copied(old(a[..]), 0, CharArray(t, bufsize, index))
  {
    if bufsize == 0 {
      assert a[..] == Copied(a[..], 0, []);
      return;
    }
    if index >= |t| {
      CopyTerminated(a, []);
      assert [] + [NUL] == [NUL];
      return;
    }
    var n := Min(bufsize - 1, |t| - index);
    CopyTerminated(a, t[index..index + n]);
  }

  /** trim()'s forward walk over the text in `a[..len]`: the first byte
      that is not white space, the terminator at the latest. */
  method WalkForward(a: array<char>, len: nat) returns (start: nat)
    requires len < a.Length && a[len] == NUL
    ensures start <= len && (start == len || !IsSpace(a[start]))
    ensures forall i :: 0 <= i < start ==> IsSpace(a[i])
  {
    start := 0;
    while IsSpace(a[start])
      invariant 0 <= start <= len
      invariant forall i :: 0 <= i < start ==> IsSpace(a[i])
      decreases len - start
    {
      start := start + 1;
    }
  }

  /** trim()'s backward walk from the last byte of `a[..len]`, stopping at
      a byte that is not white space or when it passes `start`. */
  method WalkBack(a: array<char>, start: nat, len: nat) returns (last: int)
    requires 0 < len < a.Length && start <= len
    requires start == len || !IsSpace(a[start])
    ensures start - 1 <= last <= len - 1 && 0 <= last
    ensures last + 1 == start || !IsSpace(a[last])
    ensures forall i :: last < i < len ==> IsSpace(a[i])
  {
    last := len - 1;
    while IsSpace(a[last]) && last >= start
      invariant start - 1 <= last <= len - 1 && 0 <= last
      invariant forall i :: last < i < len ==> IsSpace(a[i])
      decreases last
    {
      last := last - 1;
    }
  }

  /** memcpy of `d` to the front of `a`, then a terminating NUL after it. */
  method CopyTerminated(a: array<char>, d: seq<char>)
    requires |d| < a.Length
    modifies a
    ensures a[..] == Copied(old(a[..]), 0, d + [NUL])
  {
    CopyInto(a, 0, d);
    ghost var mid := a[..];
    a[|d|] := NUL;
    assert a[..] == mid[|d| := NUL];
    CopiedThenNul(old(a[..]), d);
  }

  /** memcpy from a buffer that does not overlap `a`. */
  method CopyInto(a: array<char>, at: nat, data: seq<char>)
    requires at + |data| <= a.Length
    modifies a
    ensures a[..] == Copied(old(a[..]), at, data)
  {
    ghost var s := a[..];
    var k := 0;
    while k < |data|
      invariant 0 <= k <= |data|
      invariant forall i :: 0 <= i < a.Length ==>
        a[i] == if at <= i < at + k then data[i - at] else old(a[i])
    {
      a[at + k] := data[k];
      k := k + 1;
    }
    assert a[..] == Copied(s, at, data);
  }

  /** Moving the `len - index` bytes after `index` up by |d| and copying `d`
      into the gap leaves `d` spliced into the first `len` bytes. */
  lemma InsertLayout(s: seq<char>, len: nat, index: nat, d: seq<char>)
    requires index <= len && len + |d| <= |s|
    ensures Copied(Moved(s, index + |d|, index, len - index), index, d)[..len + |d|]
      == Splice(s[..len], index, d)
  {
    var m := Moved(s, index + |d|, index, len - index);
    var c := Copied(m, index, d);
    var u := Splice(s[..len], index, d);
    forall i | 0 <= i < len + |d|
      ensures c[i] == u[i]
    {
      if i < index {
        assert u[i] == s[i];
      } else if i < index + |d| {
        assert u[i] == d[i - index];
      } else {
        assert u[i] == s[i - |d|];
      }
    }
    assert c[..len + |d|] == u;
  }

  /** Splicing text into text gives text. */
  lemma SpliceText(t: seq<char>, i: nat, p: seq<char>)
    requires i <= |t| && IsText(t) && IsText(p)
    ensures IsText(Splice(t, i, p))
  {
    var u := Splice(t, i, p);
    forall k | 0 <= k < |u|
      ensures IsChar(u[k])
    {
      if k < i {
        assert u[k] == t[k];
      } else if k < i + |p| {
        assert u[k] == p[k - i];
      } else {
        assert u[k] == t[k - |p|];
      }
    }
  }

  /** handle_insert's two byte moves: the `len - index` bytes from `index`
      on go up by |d| and `d` is copied into the gap, so the first
      `len + |d|` bytes hold `d` spliced into the first `len`. */
  method InsertBytes(a: array<char>, len: nat, index: nat, d: seq<char>)
    requires index <= len && len + |d| <= a.Length
    modifies a
    ensures a[..len + |d|] == Splice(old(a[..len]), index, d)
  {
    ghost var s0 := a[..];
    MemMove(a, index + |d|, index, len - index);
    CopyInto(a, index, d);
    InsertLayout(s0, len, index, d);
    assert s0[..len] == old(a[..len]);
    assert a[..len + |d|] == a[..][..len + |d|];
  }

  /** One byte of Copied. */
  lemma CopiedAt(s: seq<char>, at: nat, data: seq<char>, i: nat)
    requires at + |data| <= |s| && i < |s|
    ensures Copied(s, at, data)[i] == if at <= i < at + |data| then data[i - at] else s[i]
  {
  }

  /** The fill loop of handle_insert(index, repeat, c). */
  method Fill(a: array<char>, at: nat, cnt: nat, c: char)
    requires at + cnt <= a.Length
    modifies a
    ensures a[..] == Copied(old(a[..]), at, Repeat(cnt, c))
  {
    ghost var s := a[..];
    var k := 0;
    while k < cnt
      invariant 0 <= k <= cnt
      invariant forall i :: 0 <= i < a.Length ==>
        a[i] == if at <= i < at + k then c else old(a[i])
    {
      a[at + k] := c;
      k := k + 1;
    }
    forall i | 0 <= i < a.Length
      ensures a[..][i] == Copied(s, at, Repeat(cnt, c))[i]
    {
      CopiedAt(s, at, Repeat(cnt, c), i);
    }
  }

  /** handle_insert(index, repeat, c)'s byte moves: the tail goes up by
      `cnt` and the gap is filled with `c`. */
  method InsertRepeatBytes(a: array<char>, len: nat, index: nat, cnt: nat, c: char)
    requires index <= len && len + cnt <= a.Length
    modifies a
    ensures a[..len + cnt] == Splice(old(a[..len]), index, Repeat(cnt, c))
  {
    ghost var s0 := a[..];
    MemMove(a, index + cnt, index, len - index);
    Fill(a, index, cnt, c);
    InsertLayout(s0, len, index, Repeat(cnt, c));
    assert s0[..len] == old(a[..len]);
    assert a[..len + cnt] == a[..][..len + cnt];
  }

  /** Moving the bytes from `index + cnt` up to and including the terminator
      at `len` down to `index` leaves the text without those `cnt` bytes. */
  lemma EraseLayout(s: seq<char>, len: nat, index: nat, cnt: nat)
    requires index + cnt <= len < |s|
    ensures Moved(s, index, index + cnt, len - index - cnt + 1)[..len - cnt]
      == s[..len][..index] + s[..len][index + cnt..]
  {
    var m := Moved(s, index, index + cnt, len - index - cnt + 1);
    var u := s[..len][..index] + s[..len][index + cnt..];
    forall i | 0 <= i < len - cnt
      ensures m[i] == u[i]
    {
      MovedAt(s, index, index + cnt, len - index - cnt + 1, i);
      if i < index {
        assert u[i] == s[i];
      } else {
        assert u[i] == s[i + cnt];
      }
    }
    assert m[..len - cnt] == u;
  }

  /** remove(index, cnt)'s memmove, which carries the terminator along. */
  method EraseBytes(a: array<char>, len: nat, index: nat, cnt: nat)
    requires index + cnt <= len < a.Length
    modifies a
    ensures a[..len - cnt] == old(a[..len])[..index] + old(a[..len])[index + cnt..]
  {
    ghost var s0 := a[..];
    MemMove(a, index, index + cnt, len - index - cnt + 1);
    EraseLayout(s0, len, index, cnt);
    assert s0[..len] == old(a[..len]);
    assert a[..len - cnt] == a[..][..len - cnt];
  }

  /** When handle_insert(index, repeat, c) gets past its refusals, its flag
      and the spliced text are what InsertedRepeat describes. */
  lemma InsertedRepeatSplice(t: seq<char>, index: nat, repeat: nat, c: char, cap: nat, cnt: nat)
    requires |t| <= cap && IsText(t) && IsChar(c)
    requires index <= |t| && repeat > 0 && |t| < cap
    requires cnt == Min(cap - |t|, repeat)
    ensures IsText(Splice(t, index, Repeat(cnt, c)))
    ensures InsertedRepeat(t, index, repeat, c, cap) == (cnt == repeat, Splice(t, index, Repeat(cnt, c)))
  {
    SpliceText(t, index, Repeat(cnt, c));
  }

  /** remove(index, cnt) past its early returns: the bytes before `index`
      and those after the removed run. */
  lemma ErasedSlices(t: seq<char>, index: nat, cnt: nat, actual: nat)
    requires cnt > 0 && index < |t| && actual == Min(cnt, |t| - index) && IsText(t)
    ensures Erased(t, index, cnt) == t[..index] + t[index + actual..]
    ensures IsText(t[..index] + t[index + actual..])
  {
  }

  /** A prefix of text is text. */
  lemma PrefixText(t: seq<char>, n: nat)
    requires IsText(t) && n <= |t|
    ensures IsText(t[..n])
  {
  }

  /** Copying `d` and then writing a terminator after it is copying `d`
      followed by the terminator. */
  lemma CopiedThenNul(s: seq<char>, d: seq<char>)
    requires |d| < |s|
    ensures Copied(s, 0, d)[|d| := NUL] == Copied(s, 0, d + [NUL])
  {
  }

  /** The first `n` bytes of the first `len` are the first `n`. */
  lemma ArrayPrefix(a: array<char>, len: nat, n: nat)
    requires n <= len <= a.Length
    ensures a[..len][..n] == a[..n]
  {
  }

  /** After removing the first `start` bytes, the first `n` bytes left are
      those from `start` on. */
  lemma ErasedFront(t: seq<char>, start: nat, n: nat)
    requires start + n <= |t|
    ensures Erased(t, 0, start)[..n] == t[start..start + n]
  {
  }

  /** When handle_insert gets past its refusals, its flag and the spliced
      text are what Inserted describes, and the text stays NUL-free. */
  lemma InsertedSplice(t: seq<char>, index: nat, data: seq<char>, cap: nat, allowPartial: bool, cnt: nat)
    requires |t| <= cap && IsText(t) && IsText(data)
    requires !InsertRefused(t, index, data, cap, allowPartial)
    requires cnt == Min(cap - |t|, |data|)
    ensures IsText(Splice(t, index, data[..cnt]))
    ensures Inserted(t, index, data, cap, allowPartial) == (cnt == |data|, Splice(t, index, data[..cnt]))
  {
    SpliceText(t, index, data[..cnt]);
  }

  class FixedString {
    /** The storage size c_storage_size. */
    const N: nat
    /** m_str: N - 1 bytes, the text followed by its terminator. */
    const str: array<char>
    /** m_len: the cached length. */
    var len: nat

    /** The layout: the size is allowed, the array has N - 1 bytes and the
        length is at most the capacity. */
    ghost predicate Shaped()
      reads this
    {
      4 <= N <= 256 && N % 4 == 0 && str.Length == N - 1 && len <= N - 2
    }

    /** The class invariant: the text before the terminator is NUL-free and
        the terminator sits at the cached length. */
    ghost predicate Valid()
      reads this, str
    {
      Shaped() && str[len] == NUL && IsText(str[..len])
    }

    /** The text the object holds. */
    function Contents(): seq<char>
      reads this, str
      requires Shaped()
    {
      str[..len]
    }

    /** capacity(): two of the N bytes go to the length and the terminator. */
    function Capacity(): nat
    {
      if N >= 2 then N - 2 else 0
    }

    /** full(): no room is available. */
    function Full(): bool
      reads this
    {
      len == Capacity()
    }

    /** The default constructor: empty, with every byte zero. */
    constructor (n: nat)
      requires 4 <= n <= 256 && n % 4 == 0
      ensures Valid() && N == n && Contents() == []
      ensures fresh(str)
    {
      N := n;
      str := new char[n - 1](_ => NUL);
      len := 0;
    }

    /** set_len(len): an over-long length is ignored; otherwise the length is
        stored and the terminator written after it. The bytes before the new
        length must already be text. */
    method SetLen(n: nat)
      requires Shaped()
      requires n <= Capacity() ==> IsText(str[..n])
      requires n > Capacity() ==> Valid()
      modifies this, str
      ensures Valid()
      ensures n <= Capacity() ==> len == n && str[..n] == old(str[..n])
      ensures n > Capacity() ==> len == old(len) && str[..] == old(str[..])
    {
      if n > Capacity() {
        return;
      }
      len := n;
      str[len] := NUL;
      assert str[..n] == old(str[..n]);
    }

    /** set_len(len, append_ok): set_len, then report `append_ok`
        (notify_overrun only prints, and returns false). */
    method SetLenReport(n: nat, appendOk: bool) returns (ok: bool)
      requires Shaped() && n <= Capacity() && IsText(str[..n])
      modifies this, str
      ensures Valid() && len == n && str[..n] == old(str[..n])
      ensures ok == appendOk
    {
      SetLen(n);
      ok := appendOk;
    }

    /** clear(): the empty text. */
    method Clear()
      requires Shaped()
      modifies this, str
      ensures Valid() && Contents() == []
    {
      SetLen(0);
    }

    /** handle_insert(index, data, len, allowPartial): refuses an index past
        the end, empty data, a full buffer, or (without allowPartial) data
        longer than the capacity; otherwise moves the tail up by the number of
        bytes that fit, copies them in, and reports whether all of `data` went
        in. */
    method HandleInsert(index: nat, data: seq<char>, allowPartial: bool) returns (ok: bool)
      requires Valid() && IsText(data)
      modifies this, str
      ensures Valid()
      ensures (ok, Contents()) == Inserted(old(Contents()), index, data, Capacity(), allowPartial)
    {
      ghost var t := Contents();
      if index > len {
        return false;
      }
      if data == [] {
        return false;
      }
      if Full() {
        return false;
      }
      if !allowPartial && |data| > Capacity() {
        return false;
      }
      var cnt := Min(Capacity() - len, |data|);
      InsertBytes(str, len, index, data[..cnt]);
      InsertedSplice(t, index, data, Capacity(), allowPartial, cnt);
      ok := SetLenReport(len + cnt, cnt == |data|);
    }

    /** handle_insert(index, repeat, c): refuses an index past the end, a
        zero count, NUL and a full buffer; otherwise inserts as many copies
        of `c` as fit. */
    method HandleInsertRepeat(index: nat, repeat: nat, c: char) returns (ok: bool)
      requires Valid() && (c == NUL || IsChar(c))
      modifies this, str
      ensures Valid()
      ensures (ok, Contents()) == InsertedRepeat(old(Contents()), index, repeat, c, Capacity())
    {
      ghost var t := Contents();
      if index > len {
        return false;
      }
      if repeat == 0 || c == NUL {
        return false;
      }
      if Full() {
        return false;
      }
      var cnt := Min(Capacity() - len, repeat);
      InsertRepeatBytes(str, len, index, cnt, c);
      InsertedRepeatSplice(t, index, repeat, c, Capacity(), cnt);
      ok := SetLenReport(len + cnt, cnt == repeat);
    }

    /** remove(index): truncation to `index` bytes. */
    method Remove(index: nat)
      requires Valid()
      modifies this, str
      ensures Valid() && Contents() == Truncated(old(Contents()), index)
    {
      if index < len {
        ghost var t := Contents();
        assert str[..index] == t[..index];
        SetLen(index);
      }
    }

    /** remove(index, cnt): the min(cnt, length - index) bytes at `index` go;
        nothing for a zero count or a position past the end. */
    method RemoveRange(index: nat, cnt: nat)
      requires Valid()
      modifies this, str
      ensures Valid() && Contents() == Erased(old(Contents()), index, cnt)
    {
      if cnt == 0 {
        return;
      }
      if index >= len {
        return;
      }
      ghost var t := Contents();
      var maxCnt := len - index;
      var actual := Min(cnt, maxCnt);
      EraseBytes(str, len, index, actual);
      ErasedSlices(t, index, cnt, actual);
      SetLen(len - actual);
    }

    /** handle_replace(index, eraseCnt, r): erase, then insert `r` with
        partial insertion allowed. */
    method HandleReplace(index: nat, eraseCnt: nat, r: seq<char>)
      requires Valid() && IsText(r)
      modifies this, str
      ensures Valid()
      ensures Contents() == Inserted(Erased(old(Contents()), index, eraseCnt), index, r, Capacity(), true).1
    {
      if eraseCnt > 0 {
        RemoveRange(index, eraseCnt);
      }
      var _ := HandleInsert(index, r, true);
    }

    /** One round of replace(s, new_s)'s loop at a match at `index`:
        handle_replace when `r` is not empty, otherwise only the removal. */
    method ReplaceAt(index: nat, s: seq<char>, r: seq<char>)
      requires Valid() && s != [] && IsText(r) && index < len
      modifies this, str
      ensures Valid() && Contents() == ReplaceStep(old(Contents()), s, r, Capacity(), index)
    {
      if |r| > 0 {
        HandleReplace(index, |s|, r);
      } else {
        RemoveRange(index, |s|);
      }
    }

    /** replace(s, new_s): the search loop of the source, proved to leave
        Replaced, which ReplacedFits relates to replacing every occurrence. */
    method Replace(s: seq<char>, r: seq<char>)
      requires Valid() && IsText(s) && IsText(r)
      modifies this, str
      ensures Valid() && Contents() == Replaced(old(Contents()), s, r, Capacity())
    {
      if len == 0 {
        return;
      }
      if |s| == 0 {
        return;
      }
      if |s| == |r| && s == r {
        return;
      }
      ghost var goal := Replaced(Contents(), s, r, Capacity());
      var index := IndexOf(Contents(), s, 0);
      while 0 <= index < len
        invariant Valid()
        invariant ReplaceRun(Contents(), s, r, Capacity(), index) == goal
        decreases if index < 0 || index > Capacity() then 0 else Capacity() + 1 - index, len
      {
        index := ReplaceRound(index, s, r);
      }
      ReplaceRunStops(Contents(), s, r, Capacity(), index);
    }

    /** One pass of replace(s, new_s)'s loop: the occurrence at `index`
        becomes `r`, the position moves past the inserted text, and unless
        that is past the end the search resumes there. */
    method ReplaceRound(index: nat, s: seq<char>, r: seq<char>) returns (next: int)
      requires Valid() && s != [] && IsText(r) && index < len
      modifies this, str
      ensures Valid()
      ensures ReplaceRun(old(Contents()), s, r, Capacity(), index) == ReplaceRun(Contents(), s, r, Capacity(), next)
      ensures next < 0 || index < next || (next == index && len < old(len))
    {
      ghost var t := Contents();
      ReplaceAt(index, s, r);
      ghost var t' := Contents();
      next := index + |r|;
      if next >= len {
        ReplaceRunUnfold(t, t', s, r, Capacity(), index);
        ReplaceRunStops(t', s, r, Capacity(), next);
        return;
      }
      ghost var nx := IndexOf(t', s, next);
      ReplaceRunNext(t, t', s, r, Capacity(), index, nx);
      next := IndexOf(Contents(), s, next);
      assert next == nx;
    }

    /** replace(c, new_c): every `c` becomes `newC`; nothing when either is
        NUL or they are equal. */
    method ReplaceChar(c: char, newC: char)
      requires Valid() && (newC == NUL || IsChar(newC))
      modifies str
      ensures Valid()
      ensures Contents() == if c == NUL || newC == NUL || c == newC then old(Contents())
                            else SubstChar(old(Contents()), c, newC)
    {
      if c == NUL || newC == NUL || c == newC {
        return;
      }
      var i := 0;
      while i < len
        invariant 0 <= i <= len
        invariant forall k :: 0 <= k < str.Length ==>
          str[k] == if k < i && old(str[k]) == c then newC else old(str[k])
      {
        if str[i] == c {
          str[i] := newC;
        }
        i := i + 1;
      }
      assert Contents() == SubstChar(old(Contents()), c, newC);
    }

    /** toLowerCase(): tolower on every byte. */
    method ToLowerCase()
      requires Valid()
      modifies str
      ensures Valid() && Contents() == LowerText(old(Contents()))
    {
      var i := 0;
      while i < len
        invariant 0 <= i <= len
        invariant forall k :: 0 <= k < str.Length ==>
          str[k] == if k < i then ToLower(old(str[k])) else old(str[k])
      {
        str[i] := ToLower(str[i]);
        i := i + 1;
      }
      assert Contents() == LowerText(old(Contents()));
    }

    /** toUpperCase(): toupper on every byte. */
    method ToUpperCase()
      requires Valid()
      modifies str
      ensures Valid() && Contents() == UpperText(old(Contents()))
    {
      var i := 0;
      while i < len
        invariant 0 <= i <= len
        invariant forall k :: 0 <= k < str.Length ==>
          str[k] == if k < i then ToUpper(old(str[k])) else old(str[k])
      {
        str[i] := ToUpper(str[i]);
        i := i + 1;
      }
      assert Contents() == UpperText(old(Contents()));
    }

    /** trim()'s two walks: forward to the first byte that is not white
        space (the terminator stops it), then back from the end to the last
        one, never below `start`. They delimit what Trimmed keeps. */
    method TrimWalks() returns (start: nat, last: int)
      requires Valid() && len > 0
      ensures start <= last + 1 <= len
      ensures Trimmed(Contents()) == Contents()[start..last + 1]
    {
      start := WalkForward(str, len);
      last := WalkBack(str, start, len);
      TrimmedBetween(Contents(), start, last + 1);
    }

    /** trim(): remove the leading run, then cut the length. */
    method Trim()
      requires Valid()
      modifies this, str
      ensures Valid() && Contents() == Trimmed(old(Contents()))
    {
      if len == 0 {
        return;
      }
      ghost var t := Contents();
      var start, last := TrimWalks();
      var n := last - start + 1;
      ghost var goal := t[start..start + n];
      if start > 0 {
        RemoveRange(0, start);
        ErasedFront(t, start, n);
      } else {
        assert t[..n] == goal;
      }
      CutTo(n);
      assert Contents() == goal;
    }

    /** set_len(n) for an `n` no greater than the length: the first `n`
        bytes stay. */
    method CutTo(n: nat)
      requires Valid() && n <= len
      modifies this, str
      ensures Valid() && Contents() == old(Contents())[..n]
    {
      PrefixText(Contents(), n);
      ArrayPrefix(str, len, n);
      SetLen(n);
    }

    /** setCharAt(index, c): nothing past the end; NUL shrinks the length to
        `index`. */
    method SetCharAt(index: nat, c: char)
      requires Valid() && (c == NUL || IsChar(c))
      modifies this, str
      ensures Valid() && Contents() == CharSet(old(Contents()), index, c)
    {
      if index >= len {
        return;
      }
      ghost var t := Contents();
      str[index] := c;
      if c == NUL {
        assert str[..index] == t[..index];
        SetLen(index);
      } else {
        assert Contents() == t[index := c];
      }
    }

    /** force_concat(c): append when there is room, otherwise overwrite the
        last byte. NUL is refused here; see ForcedConcatAsWritten. */
    method ForceConcat(c: char) returns (ok: bool)
      requires Valid() && (c == NUL || IsChar(c))
      modifies this, str
      ensures Valid()
      ensures (ok, Contents()) == ForcedConcat(old(Contents()), c, Capacity())
    {
      if !Full() {
        ok := HandleInsertRepeat(len, 1, c);
        return;
      }
      if c == NUL {
        return false;
      }
      ghost var t := Contents();
      str[len - 1] := c;
      assert Contents() == t[..len - 1] + [c];
      ok := true;
    }

    /** toCharArray(buf, bufsize, index) (getBytes too): writes CharArray at
        the front of `buf` and leaves the rest of it and the object alone. */
    method ToCharArray(buf: array<char>, bufsize: nat, index: nat)
      requires Valid() && bufsize <= buf.Length && buf != str
      modifies buf
      ensures buf[..] == Copied(old(buf[..]), 0, CharArray(Contents(), bufsize, index))
    {
      WriteCharArray(buf, str[..len], bufsize, index);
    }

    /** set_chars(v, radix) for a type of `bits` bits: std::to_chars into the
        scratch array, then handle_insert at the end without partial
        insertion. */
    method SetChars(v: int, radix: Radix, bits: nat) returns (ok: bool)
      requires Valid()
      modifies this, str
      ensures Valid()
      ensures (ok, Contents()) == match ToChars(v, radix, ScratchRoom(bits))
        case None => (false, old(Contents()))
        case Some(text) => Inserted(old(Contents()), |old(Contents())|, text, Capacity(), false)
    {
      match ToChars(v, radix, ScratchRoom(bits))
      case None =>
        return false;
      case Some(text) =>
        ok := HandleInsert(len, text, false);
    }

    /** set_i, set_u, set_l and set_ul: clear, then set_chars; the text is the
        whole rendering or nothing. */
    method SetInteger(v: int, radix: Radix, bits: nat, signed: bool) returns (ok: bool)
      requires Valid() && InRange(v, bits, signed)
      modifies this, str
      ensures Valid()
      ensures ok <==> |Render(v, radix)| <= Capacity()
      ensures Contents() == if ok then Render(v, radix) else []
    {
      Clear();
      ScratchFitsEveryValue(v, radix, bits, signed);
      ok := SetChars(v, radix, bits);
      assert [] + Render(v, radix) == Render(v, radix);
    }

    /** set_i(int). */
    method SetI(v: int, radix: Radix) returns (ok: bool)
      requires Valid() && InRange(v, INT_BITS, true)
      modifies this, str
      ensures Valid()
      ensures ok <==> |Render(v, radix)| <= Capacity()
      ensures Contents() == if ok then Render(v, radix) else []
    {
      ok := SetInteger(v, radix, INT_BITS, true);
    }

    /** set_u(unsigned int). */
    method SetU(v: int, radix: Radix) returns (ok: bool)
      requires Valid() && InRange(v, INT_BITS, false)
      modifies this, str
      ensures Valid()
      ensures ok <==> |Render(v, radix)| <= Capacity()
      ensures Contents() == if ok then Render(v, radix) else []
    {
      ok := SetInteger(v, radix, INT_BITS, false);
    }

    /** set_l(long). */
    method SetL(v: int, radix: Radix) returns (ok: bool)
      requires Valid() && InRange(v, LONG_BITS, true)
      modifies this, str
      ensures Valid()
      ensures ok <==> |Render(v, radix)| <= Capacity()
      ensures Contents() == if ok then Render(v, radix) else []
    {
      ok := SetInteger(v, radix, LONG_BITS, true);
    }

    /** set_ul(unsigned long). */
    method SetUL(v: int, radix: Radix) returns (ok: bool)
      requires Valid() && InRange(v, LONG_BITS, false)
      modifies this, str
      ensures Valid()
      ensures ok <==> |Render(v, radix)| <= Capacity()
      ensures Contents() == if ok then Render(v, radix) else []
    {
      ok := SetInteger(v, radix, LONG_BITS, false);
    }

    /** assign(data, len) and assign(str): clear, then concat. */
    method Assign(data: seq<char>) returns (ok: bool)
      requires Valid() && IsText(data)
      modifies this, str
      ensures Valid()
      ensures ok <==> data != [] && |data| <= Capacity()
      ensures Contents() == data[..Min(|data|, Capacity())]
    {
      Clear();
      ok := Concat(data);
      assert [] + data[..Min(|data|, Capacity())] == data[..Min(|data|, Capacity())];
    }

    /** assign(repeat, c): clear, then concat(repeat, c). */
    method AssignRepeat(repeat: nat, c: char) returns (ok: bool)
      requires Valid() && (c == NUL || IsChar(c))
      modifies this, str
      ensures Valid()
      ensures ok <==> repeat > 0 && c != NUL && repeat <= Capacity()
      ensures Contents() == if c == NUL then [] else Repeat(Min(repeat, Capacity()), c)
    {
      Clear();
      ok := ConcatRepeat(repeat, c);
      assert c != NUL ==> [] + Repeat(Min(repeat, Capacity()), c) == Repeat(Min(repeat, Capacity()), c);
    }

    /** assign(rhs) for another FixedString of any size: clear, then
        concat(rhs). Assigning an object to itself reads its length after
        the clear, so it leaves the object empty and returns false. */
    method AssignFrom(rhs: FixedString) returns (ok: bool)
      requires Valid() && rhs.Valid() && (rhs == this || rhs.str != str)
      modifies this, str
      ensures Valid()
      ensures rhs == this ==> !ok && Contents() == []
      ensures rhs != this ==> (ok <==> old(rhs.Contents()) != [] && |old(rhs.Contents())| <= Capacity())
      ensures rhs != this ==> Contents() == old(rhs.Contents())[..Min(|old(rhs.Contents())|, Capacity())]
    {
      Clear();
      ok := ConcatFrom(rhs);
      assert [] + old(rhs.Contents())[..Min(|old(rhs.Contents())|, Capacity())]
        == old(rhs.Contents())[..Min(|old(rhs.Contents())|, Capacity())];
    }

    /** concat(data, len), concat(str): handle_insert at the end. */
    method Concat(data: seq<char>) returns (ok: bool)
      requires Valid() && IsText(data)
      modifies this, str
      ensures Valid()
      ensures ok <==> data != [] && |old(Contents())| + |data| <= Capacity()
      ensures Contents() == old(Contents()) + data[..Min(|data|, Capacity() - |old(Contents())|)]
    {
      InsertedAtEnd(Contents(), data, Capacity());
      ok := HandleInsert(len, data, true);
    }

    /** concat(c): one copy of `c` at the end. */
    method ConcatChar(c: char) returns (ok: bool)
      requires Valid() && (c == NUL || IsChar(c))
      modifies this, str
      ensures Valid()
      ensures ok <==> c != NUL && |old(Contents())| < Capacity()
      ensures Contents() == if ok then old(Contents()) + [c] else old(Contents())
    {
      ok := ConcatRepeat(1, c);
    }

    /** concat(repeat, c): as many copies of `c` at the end as fit. */
    method ConcatRepeat(repeat: nat, c: char) returns (ok: bool)
      requires Valid() && (c == NUL || IsChar(c))
      modifies this, str
      ensures Valid()
      ensures ok <==> repeat > 0 && c != NUL && |old(Contents())| + repeat <= Capacity()
      ensures Contents() == if c == NUL then old(Contents())
        else old(Contents()) + Repeat(Min(repeat, Capacity() - |old(Contents())|), c)
    {
      if c != NUL {
        InsertedRepeatAtEnd(Contents(), repeat, c, Capacity());
      }
      ok := HandleInsertRepeat(len, repeat, c);
    }

    /** concat(rhs) for another FixedString, read when the call is made (so
        an object may be appended to itself). */
    method ConcatFrom(rhs: FixedString) returns (ok: bool)
      requires Valid() && rhs.Valid() && (rhs == this || rhs.str != str)
      modifies this, str
      ensures Valid()
      ensures ok <==> old(rhs.Contents()) != [] && |old(Contents())| + |old(rhs.Contents())| <= Capacity()
      ensures Contents() == old(Contents()) + old(rhs.Contents())[..Min(|old(rhs.Contents())|, Capacity() - |old(Contents())|)]
    {
      ok := Concat(rhs.Contents());
    }

    /** concat(n, radix) for an integer type of `bits` bits: the number is
        rendered into a temporary FixedString of the same size (empty when
        the rendering does not fit) and that is appended, cut if need be. */
    method ConcatInteger(v: int, radix: Radix, bits: nat, signed: bool) returns (ok: bool)
      requires Valid() && InRange(v, bits, signed)
      modifies this, str
      ensures Valid()
      ensures var text := if |Render(v, radix)| <= Capacity() then Render(v, radix) else [];
        (ok <==> text != [] && |old(Contents())| + |text| <= Capacity()) &&
        Contents() == old(Contents()) + text[..Min(|text|, Capacity() - |old(Contents())|)]
    {
      ghost var text := if |Render(v, radix)| <= Capacity() then Render(v, radix) else [];
      var number := new FixedString(N);
      var _ := number.SetInteger(v, radix, bits, signed);
      assert number.Contents() == text;
      ok := ConcatFrom(number);
    }

    /** insert(index, data, len) and insert(index, str). */
    method Insert(index: nat, data: seq<char>)
      requires Valid() && IsText(data)
      modifies this, str
      ensures Valid() && Contents() == Inserted(old(Contents()), index, data, Capacity(), true).1
    {
      var _ := HandleInsert(index, data, true);
    }

    /** insert(index, repeat, c). */
    method InsertRepeat(index: nat, repeat: nat, c: char)
      requires Valid() && (c == NUL || IsChar(c))
      modifies this, str
      ensures Valid() && Contents() == InsertedRepeat(old(Contents()), index, repeat, c, Capacity()).1
    {
      var _ := HandleInsertRepeat(index, repeat, c);
    }
  }

  /** A FixedString<8> (capacity 6) holding `text`. */
  method Holding(text: seq<char>) returns (f: FixedString)
    requires IsText(text) && 0 < |text| <= 6
    ensures fresh(f) && fresh(f.str) && f.Valid() && f.N == 8 && f.Contents() == text
  {
    f := new FixedString(8);
    var _ := f.Assign(text);
    assert text[..|text|] == text;
  }

  /** With a storage size of 8 (capacity 6), appending to a full buffer is
      refused and leaves it as it was. */
  method OverflowExample() returns (ok: bool, text: seq<char>)
    ensures !ok && text == "abcdef"
  {
    var f := Holding("abcdef");
    ok := f.Concat("X");
    text := f.Contents();
  }

  /** force_concat on a full buffer overwrites the last byte. */
  method ForceConcatExample() returns (ok: bool, text: seq<char>)
    ensures ok && text == "abcdeZ"
  {
    var f := Holding("abcdef");
    ok := f.ForceConcat('Z');
    text := f.Contents();
    assert "abcdef"[..5] == "abcde";
  }

  /** set_u(255, base16) gives "ff". */
  method HexExample() returns (ok: bool, text: seq<char>)
    ensures ok && text == "ff"
  {
    var f := new FixedString(8);
    assert Pow2(32) > 255 by {
      assert Pow2(8) == 256;
      Pow2Monotone(8, 32);
    }
    RenderHexExample();
    ok := f.SetU(255, Base16);
    text := f.Contents();
  }

  /** replace("a", "bb") on "aaa" gives "bbbbbb" when it fits. */
  method ReplaceExample() returns (text: seq<char>)
    ensures text == "bbbbbb"
  {
    var f := Holding("aaa");
    ReplacedExample();
    f.Replace("a", "bb");
    text := f.Contents();
  }

  /** trim() on " ab\t" gives "ab". */
  method TrimExample() returns (text: seq<char>)
    ensures text == "ab"
  {
    var f := Holding(" ab\t");
    TrimmedExample();
    f.Trim();
    text := f.Contents();
  }
}
