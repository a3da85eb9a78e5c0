/** Integer text conversion: the radix rendering that std::to_chars
    produces for set_chars, and the atol parse behind get_int and toInt. */
module Numeric {
  import opened Chars
  import opened Options

  /** The radix selector of the integer conversions. */
  datatype Radix = Base2 | Base8 | Base10 | Base16 {
    function Base(): (b: nat)
      ensures 2 <= b <= 16
    {
      match this
      case Base2 => 2
      case Base8 => 8
      case Base10 => 10
      case Base16 => 16
    }
  }

  /** Pow2 grows with its exponent. */
  lemma {:induction false} Pow2Monotone(j: nat, k: nat)
    requires j <= k
    ensures Pow2(j) <= Pow2(k)
    decreases k
  {
    if j < k {
      Pow2Monotone(j, k - 1);
    }
  }

  /** Widths of the C++ integer types on the host (LP64): int and unsigned
      int have 32 bits, long and unsigned long 64. */
  const INT_BITS: nat := 32
  const LONG_BITS: nat := 64

  function Pow2(k: nat): (p: nat)
    ensures p >= 1
  {
    if k == 0 then 1 else 2 * Pow2(k - 1)
  }

  /** `v` is a value of a `bits`-bit integer type, signed or unsigned. */
  predicate InRange(v: int, bits: nat, signed: bool)
  {
    bits >= 1 &&
    if signed then -(Pow2(bits - 1) as int) <= v < Pow2(bits - 1) else 0 <= v < Pow2(bits)
  }

  /** The value of a lower-case digit of radix up to 16 (0 for any other byte). */
  function DigitValue(c: char): nat
  {
    if IsDigit(c) then c as int - '0' as int
    else if 'a' <= c <= 'f' then c as int - 'a' as int + 10
    else 0
  }

  /** The lower-case digit for `d`, as std::to_chars writes it. */
  function DigitChar(d: nat): (c: char)
    requires d < 16
    ensures IsChar(c) && !IsSpace(c) && c != '-' && c != '+'
    ensures DigitValue(c) == d
    ensures IsDigit(c) <==> d < 10
  {
    if d < 10 then ('0' as int + d) as char else ('a' as int + d - 10) as char
  }

  /** A lower-case digit of radix `b`. */
  predicate IsRadixDigit(c: char, b: nat)
  {
    (IsDigit(c) || 'a' <= c <= 'f') && DigitValue(c) < b
  }

  /** The digits of `n` in base `b`, most significant first, with no
      leading zero. */
  function Digits(n: nat, b: nat): (r: seq<char>)
    requires 2 <= b <= 16
    ensures r != []
    ensures forall i :: 0 <= i < |r| ==> IsRadixDigit(r[i], b)
    ensures r[0] == '0' ==> n == 0
    decreases n
  {
    if n < b then [DigitChar(n)]
    else
      DivAtLeastTwo(n, b);
      Digits(n / b, b) + [DigitChar(n % b)]
  }

  /** Radix digits are bytes of a C string and are neither white space nor
      a sign; decimal ones are IsDigit. */
  lemma DigitsAreText(n: nat, b: nat)
    requires 2 <= b <= 16
    ensures IsText(Digits(n, b))
    ensures forall i :: 0 <= i < |Digits(n, b)| ==> !IsSpace(Digits(n, b)[i]) && Digits(n, b)[i] != '-' && Digits(n, b)[i] != '+'
    ensures b <= 10 ==> forall i :: 0 <= i < |Digits(n, b)| ==> IsDigit(Digits(n, b)[i])
  {
  }

  /** The value of a digit string in base `b`, most significant digit first. */
  function ValueOf(d: seq<char>, b: nat): nat
  {
    if d == [] then 0 else ValueOf(d[..|d| - 1], b) * b + DigitValue(d[|d| - 1])
  }

  /** Reading the digits back gives the number: the rendering loses nothing. */
  lemma {:induction false} DigitsRoundTrip(n: nat, b: nat)
    requires 2 <= b <= 16
    ensures ValueOf(Digits(n, b), b) == n
    decreases n
  {
    if n >= b {
      var q, m := n / b, n % b;
      assert q * b + m == n;
      DivAtLeastTwo(n, b);
      var d, c := Digits(q, b), DigitChar(m);
      assert Digits(n, b) == d + [c];
      assert ValueOf(d + [c], b) == ValueOf(d, b) * b + m by {
        assert (d + [c])[..|d|] == d;
      }
      DigitsRoundTrip(q, b);
    }
  }

  /** std::to_chars(first, last, v, radix) as text: lower-case digits after
      a '-' for negative values. */
  function Render(v: int, radix: Radix): (r: seq<char>)
    ensures r != [] && IsText(r)
    ensures r[0] == '-' <==> v < 0
  {
    var n: nat := if v < 0 then -v else v;
    DigitsAreText(n, radix.Base());
    if v < 0 then ['-'] + Digits(n, radix.Base()) else Digits(n, radix.Base())
  }

  /** The sign and the digits of a rendering give back the value. */
  lemma RenderRoundTrip(v: int, radix: Radix)
    ensures v < 0 ==> -(ValueOf(Render(v, radix)[1..], radix.Base()) as int) == v
    ensures v >= 0 ==> ValueOf(Render(v, radix), radix.Base()) == v
  {
    if v < 0 {
      assert Render(v, radix)[1..] == Digits(-v, radix.Base());
      DigitsRoundTrip(-v, radix.Base());
    } else {
      DigitsRoundTrip(v, radix.Base());
    }
  }

  /** The rendering of 255 in base 16 is "ff". */
  lemma RenderHexExample()
    ensures Render(255, Base16) == "ff"
  {
    assert Digits(255, 16) == Digits(15, 16) + [DigitChar(15)];
  }

  /** std::to_chars into a range of `room` characters: an Option standing
      for errc::value_too_large when the text is longer than the range. */
  function ToChars(v: int, radix: Radix, room: nat): (r: Option<seq<char>>)
    ensures r == None <==> |Render(v, radix)| > room
    ensures r != None ==> r.value == Render(v, radix)
  {
    var text := Render(v, radix);
    if |text| > room then None else Some(text)
  }

  /** set_chars declares a scratch array of 1 + bits characters but hands
      std::to_chars only `sizeof(buf) - 1` = bits of them. */
  function ScratchRoomAsWritten(bits: nat): nat
  {
    bits
  }

  /** The room the scratch array evidently means to offer: all 1 + bits characters. */
  function ScratchRoom(bits: nat): nat
  {
    bits + 1
  }

  /** Dividing by a radix of at least 2 at least halves a number, and
      leaves a smaller positive quotient when the number has two digits. */
  lemma DivAtLeastTwo(n: nat, b: nat)
    requires b >= 2
    ensures n / b <= n / 2
    ensures n >= b ==> 1 <= n / b < n
  {
    var q, m := n / b, n % b;
    assert q * b + m == n && 0 <= m < b;
    MulAtLeastDouble(q, b);
  }

  /** q * b is at least 2 * q for b >= 2. */
  lemma MulAtLeastDouble(q: nat, b: nat)
    requires b >= 2
    ensures 2 * q <= q * b
  {
    assert q * b == 2 * q + q * (b - 2);
  }

  /** A number below 2^k has at most k digits in any radix of at least 2. */
  lemma {:induction false} DigitsLength(n: nat, b: nat, k: nat)
    requires 2 <= b <= 16 && k >= 1 && n < Pow2(k)
    ensures |Digits(n, b)| <= k
    decreases n
  {
    if n >= b {
      DivAtLeastTwo(n, b);
      DigitsLength(n / b, b, k - 1);
    }
  }

  /** 2^k is a one followed by k zeros in base 2. */
  lemma {:induction false} DigitsOfPow2(k: nat)
    ensures |Digits(Pow2(k), 2)| == k + 1
  {
    if k > 0 {
      DigitsOfPow2(k - 1);
      assert Pow2(k) / 2 == Pow2(k - 1);
    }
  }

  /** Every value of a `bits`-bit type fits in ScratchRoom(bits), so the
      corrected conversion never fails. */
  lemma ScratchFitsEveryValue(v: int, radix: Radix, bits: nat, signed: bool)
    requires InRange(v, bits, signed)
    ensures ToChars(v, radix, ScratchRoom(bits)) == Some(Render(v, radix))
  {
    if v < 0 {
      assert Pow2(bits) == 2 * Pow2(bits - 1);
      DigitsLength(-v, radix.Base(), bits);
    } else {
      assert signed ==> Pow2(bits) == 2 * Pow2(bits - 1);
      DigitsLength(v, radix.Base(), bits);
    }
  }

  /** As written, the most negative value of a signed type in base 2 needs
      1 + bits characters, so std::to_chars fails and set_i/set_l return
      false with an empty buffer. */
  lemma ScratchAsWrittenRejectsMinimum(bits: nat)
    requires bits >= 1
    ensures InRange(-(Pow2(bits - 1) as int), bits, true)
    ensures ToChars(-(Pow2(bits - 1) as int), Base2, ScratchRoomAsWritten(bits)) == None
  {
    DigitsOfPow2(bits - 1);
  }

  /** As written, every other value fits: the minimum in base 2 is the only loss. */
  lemma ScratchAsWrittenFitsOthers(v: int, radix: Radix, bits: nat, signed: bool)
    requires InRange(v, bits, signed)
    requires !(signed && v == -(Pow2(bits - 1) as int))
    ensures ToChars(v, radix, ScratchRoomAsWritten(bits)) == Some(Render(v, radix))
  {
    if v < 0 {
      DigitsLength(-v, radix.Base(), bits - 1);
    } else if signed {
      if bits >= 2 {
        DigitsLength(v, radix.Base(), bits - 1);
      }
    } else {
      DigitsLength(v, radix.Base(), bits);
    }
  }

  /** The text after its leading white space. */
  function SkipSpace(t: seq<char>): (r: seq<char>)
    ensures r == [] || !IsSpace(r[0])
    ensures |r| <= |t| && r == t[|t| - |r|..]
    ensures forall i :: 0 <= i < |t| - |r| ==> IsSpace(t[i])
  {
    if t != [] && IsSpace(t[0]) then SkipSpace(t[1..]) else t
  }

  /** The longest prefix of decimal digits. */
  function DigitRun(t: seq<char>): (r: seq<char>)
    ensures |r| <= |t| && r == t[..|r|]
    ensures forall i :: 0 <= i < |r| ==> IsDigit(r[i])
    ensures |r| == |t| || !IsDigit(t[|r|])
  {
    if t != [] && IsDigit(t[0]) then [t[0]] + DigitRun(t[1..]) else []
  }

  /** atol: skips leading white space, then reads a signed decimal number. */
  function Atol(t: seq<char>): int
  {
    SignedDecimal(SkipSpace(t))
  }

  /** One optional sign, then decimal digits up to the first byte that is
      not one. */
  function SignedDecimal(u: seq<char>): (r: int)
    ensures r < 0 ==> u != [] && u[0] == '-'
    ensures u != [] && u[0] == '-' ==> r <= 0
  {
    if u != [] && u[0] == '-' then -(ValueOf(DigitRun(u[1..]), 10) as int)
    else if u != [] && u[0] == '+' then ValueOf(DigitRun(u[1..]), 10)
    else ValueOf(DigitRun(u), 10)
  }

  /** Leading white space does not change what atol reads. */
  lemma AtolSkipsLeadingSpace(w: seq<char>, t: seq<char>)
    requires forall i :: 0 <= i < |w| ==> IsSpace(w[i])
    ensures Atol(w + t) == Atol(t)
  {
    SkipSpaceAppend(w, t);
  }

  /** Skipping white space passes over a white-space prefix entirely. */
  lemma {:induction false} SkipSpaceAppend(w: seq<char>, t: seq<char>)
    requires forall i :: 0 <= i < |w| ==> IsSpace(w[i])
    ensures SkipSpace(w + t) == SkipSpace(t)
    decreases |w|
  {
    if w != [] {
      HeadTail(w, t);
      assert SkipSpace(w + t) == SkipSpace(w[1..] + t);
      SkipSpaceAppend(w[1..], t);
    } else {
      assert w + t == t;
    }
  }

  /** The first byte and the rest of `w + t` for a non-empty `w`. */
  lemma HeadTail(w: seq<char>, t: seq<char>)
    requires w != []
    ensures (w + t)[0] == w[0] && (w + t)[1..] == w[1..] + t
  {
  }

  /** A run of digits is read whole, and reading continues into what follows. */
  lemma {:induction false} DigitRunAppend(d: seq<char>, rest: seq<char>)
    requires forall i :: 0 <= i < |d| ==> IsDigit(d[i])
    ensures DigitRun(d + rest) == d + DigitRun(rest)
  {
    if d != [] {
      HeadTail(d, rest);
      DigitRunAppend(d[1..], rest);
      assert d == [d[0]] + d[1..];
    } else {
      assert d + rest == rest;
    }
  }

  /** Text that starts with a run of digits `d` ended by a non-digit:
      no white space to skip, no sign, and `d` is the digit run. */
  lemma DigitsLead(d: seq<char>, rest: seq<char>)
    requires d != [] && forall i :: 0 <= i < |d| ==> IsDigit(d[i])
    requires rest == [] || !IsDigit(rest[0])
    ensures (d + rest)[0] == d[0] && IsDigit(d[0])
    ensures SkipSpace(d + rest) == d + rest
    ensures DigitRun(d + rest) == d
  {
    assert (d + rest)[0] == d[0];
    DigitRunWhole(d, rest);
  }

  /** A run of digits ended by a non-digit is the whole digit run. */
  lemma DigitRunWhole(d: seq<char>, rest: seq<char>)
    requires forall i :: 0 <= i < |d| ==> IsDigit(d[i])
    requires rest == [] || !IsDigit(rest[0])
    ensures DigitRun(d + rest) == d
  {
    DigitRunAppend(d, rest);
    assert DigitRun(rest) == [];
    assert d + [] == d;
  }

  /** atol stops at the first byte that is not a digit. */
  lemma AtolStopsAtNonDigit(d: seq<char>, rest: seq<char>)
    requires d != [] && forall i :: 0 <= i < |d| ==> IsDigit(d[i])
    requires rest == [] || !IsDigit(rest[0])
    ensures Atol(d + rest) == ValueOf(d, 10)
  {
    var u := d + rest;
    DigitsLead(d, rest);
    UnsignedDecimal(u);
  }

  /** Text that starts with a digit has no sign: it reads as its digit run. */
  lemma UnsignedDecimal(u: seq<char>)
    requires u != [] && IsDigit(u[0])
    ensures SignedDecimal(u) == ValueOf(DigitRun(u), 10)
  {
  }

  /** What atol reads from every text: leading white space `w`, at most one
      sign, the digit run `d`, and whatever follows the first non-digit.
      Without sign and digits, `rest` must not itself begin a number. */
  lemma AtolReads(w: seq<char>, sign: seq<char>, d: seq<char>, rest: seq<char>)
    requires forall i :: 0 <= i < |w| ==> IsSpace(w[i])
    requires sign == [] || sign == ['+'] || sign == ['-']
    requires forall i :: 0 <= i < |d| ==> IsDigit(d[i])
    requires rest == [] || !IsDigit(rest[0])
    requires sign == [] && d == [] ==>
               rest == [] || (!IsSpace(rest[0]) && rest[0] != '+' && rest[0] != '-')
    ensures Atol(w + (sign + d + rest)) ==
              if sign == ['-'] then -(ValueOf(d, 10) as int) else ValueOf(d, 10)
  {
    var u := sign + d + rest;
    AtolSkipsLeadingSpace(w, u);
    AtolUnspaced(sign, d, rest, u);
  }

  /** AtolReads without the leading white space. */
  lemma AtolUnspaced(sign: seq<char>, d: seq<char>, rest: seq<char>, u: seq<char>)
    requires sign == [] || sign == ['+'] || sign == ['-']
    requires forall i :: 0 <= i < |d| ==> IsDigit(d[i])
    requires rest == [] || !IsDigit(rest[0])
    requires sign == [] && d == [] ==>
               rest == [] || (!IsSpace(rest[0]) && rest[0] != '+' && rest[0] != '-')
    requires u == sign + d + rest
    ensures Atol(u) == if sign == ['-'] then -(ValueOf(d, 10) as int) else ValueOf(d, 10)
  {
    if sign == [] {
      Unsigned(d, rest);
      UnsignedRun(d, rest, u);
    } else {
      Signed(sign, d, rest);
      SignedRun(sign[0], d, rest, u);
    }
  }

  /** An empty sign adds nothing to the text. */
  lemma Unsigned(d: seq<char>, rest: seq<char>)
    ensures [] + d + rest == d + rest
  {
  }

  /** A one-byte sign is the head of the text. */
  lemma Signed(sign: seq<char>, d: seq<char>, rest: seq<char>)
    requires |sign| == 1
    ensures sign + d + rest == [sign[0]] + (d + rest)
  {
    assert sign == [sign[0]];
  }

  /** Without a sign, the digit run up to the first non-digit is read, and
      text that does not begin a number reads as 0. */
  lemma UnsignedRun(d: seq<char>, rest: seq<char>, u: seq<char>)
    requires forall i :: 0 <= i < |d| ==> IsDigit(d[i])
    requires rest == [] || !IsDigit(rest[0])
    requires d == [] ==> rest == [] || (!IsSpace(rest[0]) && rest[0] != '+' && rest[0] != '-')
    requires u == d + rest
    ensures Atol(u) == ValueOf(d, 10)
  {
    if d != [] {
      AtolStopsAtNonDigit(d, rest);
    } else {
      assert u == rest;
      NoNumber(rest);
    }
  }

  /** After a sign, the digit run up to the first non-digit is read. */
  lemma SignedRun(s: char, d: seq<char>, rest: seq<char>, u: seq<char>)
    requires s == '+' || s == '-'
    requires forall i :: 0 <= i < |d| ==> IsDigit(d[i])
    requires rest == [] || !IsDigit(rest[0])
    requires u == [s] + (d + rest)
    ensures Atol(u) == if s == '-' then -(ValueOf(d, 10) as int) else ValueOf(d, 10)
  {
    var t := d + rest;
    SignLead(s, t, u);
    NoSpaceToSkip(u);
    assert Atol(u) == SignedDecimal(u);
    DigitRunWhole(d, rest);
    SignedDecimalAfterSign(s, t, u);
  }

  /** After a sign, SignedDecimal reads the digit run of what follows it. */
  lemma SignedDecimalAfterSign(s: char, t: seq<char>, u: seq<char>)
    requires s == '+' || s == '-'
    requires u != [] && u[0] == s && u[1..] == t
    ensures SignedDecimal(u) ==
              if s == '-' then -(ValueOf(DigitRun(t), 10) as int) else ValueOf(DigitRun(t), 10)
  {
  }

  /** The head and the tail of a text that begins with a sign. */
  lemma SignLead(s: char, t: seq<char>, u: seq<char>)
    requires s == '+' || s == '-'
    requires u == [s] + t
    ensures u != [] && u[0] == s && u[1..] == t
  {
    HeadTail([s], t);
  }

  /** Text that does not begin with white space is left as it is. */
  lemma NoSpaceToSkip(u: seq<char>)
    requires u != [] && !IsSpace(u[0])
    ensures SkipSpace(u) == u
  {
  }

  /** Text that begins with no white space, sign or digit reads as 0. */
  lemma NoNumber(t: seq<char>)
    requires t == [] || (!IsSpace(t[0]) && t[0] != '+' && t[0] != '-' && !IsDigit(t[0]))
    ensures Atol(t) == 0
  {
    assert SkipSpace(t) == t;
    assert DigitRun(t) == [];
  }

  /** atol("+5x") is 5: a '+' is accepted. */
  lemma AtolPlusExample()
    ensures Atol("+5x") == 5
  {
    assert "+5x" == [] + ("+" + "5" + "x");
    AtolReads([], "+", "5", "x");
    assert "5"[..0] == [];
  }

  /** atol("-12ab") is -12: a '-' is accepted and reading stops at 'a'. */
  lemma AtolMinusExample()
    ensures Atol("-12ab") == -12
  {
    assert "-12ab" == [] + ("-" + "12" + "ab");
    AtolReads([], "-", "12", "ab");
    assert "12"[..1] == "1" && "1"[..0] == [];
  }

  /** atol("abc") is 0: no digits are read. */
  lemma AtolNoDigitsExample()
    ensures Atol("abc") == 0
  {
    NoNumber("abc");
  }

  /** atol reads back the decimal rendering of every value. */
  lemma AtolRender(v: int)
    ensures Atol(Render(v, Base10)) == v
  {
    var text := Render(v, Base10);
    RenderRoundTrip(v, Base10);
    DigitsAreText(if v < 0 then -v else v, 10);
    assert SkipSpace(text) == text;
    if v < 0 {
      var d := text[1..];
      DigitRunAppend(d, []);
      assert d + [] == d;
    } else {
      DigitRunAppend(text, []);
      assert text + [] == text;
    }
  }

  /** The digits "123" in base 10 are 123. */
  lemma ValueOfExample()
    ensures ValueOf("123", 10) == 123
  {
    assert "123"[..2] == "12" && "12"[..1] == "1" && "1"[..0] == [];
  }

  /** atol("123abc") is 123. */
  lemma AtolExample()
    ensures Atol("123abc") == 123
  {
    assert "123abc" == "123" + "abc";
    AtolStopsAtNonDigit("123", "abc");
    ValueOfExample();
  }

  /** get_int: false and 0 for an empty buffer; otherwise true and the atol
      value of the contents. */
  function GetInt(t: seq<char>): (r: (bool, int))
    ensures r.0 <==> t != []
    ensures !r.0 ==> r.1 == 0
    ensures r.0 ==> r.1 == Atol(t)
  {
    if t == [] then (false, 0) else (true, Atol(t))
  }

  /** toInt: the long value of the contents, or 0 for an empty buffer. atol
      is undefined when the value does not fit a long, so such contents are excluded. */
  function ToInt(t: seq<char>): (r: int)
    requires t == [] || InRange(Atol(t), LONG_BITS, true)
    ensures InRange(r, LONG_BITS, true)
    ensures t == [] ==> r == 0
    ensures t != [] ==> r == Atol(t)
  {
    GetInt(t).1
  }
}
