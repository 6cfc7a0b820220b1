// The in-place integer printer of proxy lab/proxylab-handout/csapp.c:
// sio_ltoa and sio_reverse.
module SioFormat {
  import opened Basics

  // C's / and %, which truncate toward zero
  function CDiv(v: int, b: int): (q: int)
    requires 2 <= b
    ensures 0 <= v ==> 0 <= q <= v / 2 && (q > 0 ==> q < v)
    ensures v < 0 ==> q <= 0
  {
    if v >= 0 then HalfBound(v, b); v / b else HalfBound(-v, b); -((-v) / b)
  }

  function CRem(v: int, b: int): (r: int)
    requires 2 <= b
    ensures -b < r < b && (0 <= v ==> 0 <= r) && (v < 0 ==> r <= 0)
  {
    if v >= 0 then v % b else -((-v) % b)
  }

  lemma HalfBound(v: int, b: int)
    requires 0 <= v && 2 <= b
    ensures 0 <= v / b <= v / 2
  {
    var q, r := v / b, v % b;
    assert v == b * q + r;
    if q < 0 { MulLe(q, -1, b); }
    if q >= 0 { MulLe(2, b, q); }
  }

  lemma DivRem(v: int, b: int)
    requires 2 <= b && 0 <= v
    ensures v == CDiv(v, b) * b + CRem(v, b)
  {
  }

  function DigitChar(c: int): char
    requires -36 < c < 36
  {
    if c < 10 then (c + 48) as char else (c - 10 + 97) as char
  }

  // The value of a digit, or -1 for any other character
  function DigitValue(ch: char): int {
    if '0' <= ch <= '9' then ch as int - 48 else if 'a' <= ch <= 'z' then ch as int - 87 else -1
  }

  predicate IsNumeral(t: seq<char>, b: int) {
    t != [] && forall i | 0 <= i < |t| :: 0 <= DigitValue(t[i]) < b
  }

  // The number that a numeral denotes, most significant digit first
  function Eval(t: seq<char>, b: int): int {
    if t == [] then 0 else Eval(t[..|t| - 1], b) * b + DigitValue(t[|t| - 1])
  }

  function Reverse(t: seq<char>): (r: seq<char>)
    ensures |r| == |t| && forall i | 0 <= i < |t| :: r[i] == t[|t| - 1 - i]
  {
    if t == [] then [] else Reverse(t[1..]) + [t[0]]
  }

  // The characters in the order the program produces them
  function Digits(v: int, b: int): (t: seq<char>)
    requires 2 <= b <= 36
    ensures t != [] && forall i | 0 <= i < |t| :: t[i] != NUL
    decreases if v < 0 then 0 else v
  {
    [DigitChar(CRem(v, b))] + if CDiv(v, b) > 0 then Digits(CDiv(v, b), b) else []
  }

  function Text(v: int, b: int): seq<char>
    requires 2 <= b <= 36
  {
    Reverse(Digits(v, b))
  }

  lemma {:induction false} DigitsEval(v: int, b: int)
    requires 2 <= b <= 36 && 0 <= v
    ensures IsNumeral(Text(v, b), b) && Eval(Text(v, b), b) == v && (Text(v, b)[0] == '0' ==> v == 0)
    decreases v
  {
    var q, c := CDiv(v, b), CRem(v, b);
    DivRem(v, b);
    if q > 0 {
      DigitsEval(q, b);
      AppendDigit(Text(q, b), c, b);
      assert Digits(v, b)[1..] == Digits(q, b);
      assert Text(v, b) == Text(q, b) + [DigitChar(c)];
    } else {
      assert Digits(v, b) == [DigitChar(c)];
      AppendDigit([], c, b);
      assert Text(v, b) == [] + [DigitChar(c)];
    }
  }

  // One more digit on the right
  lemma AppendDigit(t: seq<char>, c: int, b: int)
    requires 2 <= b <= 36 && 0 <= c < b && (t == [] || IsNumeral(t, b))
    ensures var t' := t + [DigitChar(c)];
      IsNumeral(t', b) && Eval(t', b) == Eval(t, b) * b + c && t'[0] == (if t == [] then DigitChar(c) else t[0])
    ensures DigitChar(c) == '0' <==> c == 0
  {
    var t' := t + [DigitChar(c)];
    assert t'[..|t'| - 1] == t && DigitValue(DigitChar(c)) == c;
  }

  // The string denotes v, without a leading zero unless v is 0, exactly if v is not negative.
  lemma TextDenotes(v: int, b: int)
    requires 2 <= b <= 36
    ensures (IsNumeral(Text(v, b), b) && Eval(Text(v, b), b) == v) <==> 0 <= v
    ensures 0 <= v && Text(v, b)[0] == '0' ==> v == 0
    ensures v < 0 ==> |Text(v, b)| == 1 && Text(v, b)[0] as int == 48 - (-v) % b
  {
    if 0 <= v {
      DigitsEval(v, b);
    } else {
      assert |Digits(v, b)| == 1;
      var t := Text(v, b);
      assert t[..0] == [] && Eval(t, b) == DigitValue(t[0]);
    }
  }

  // A number of at most 63 bits needs at most 63 digits in any base.
  lemma {:induction false} DigitsLength(v: int, b: int, k: nat)
    requires 2 <= b <= 36 && v < Pow2(k) && 1 <= k
    ensures |Digits(v, b)| <= k
    decreases k
  {
    if CDiv(v, b) <= 0 {
    } else {
      assert k >= 2;
      DigitsLength(CDiv(v, b), b, k - 1);
    }
  }

  // ---------- the program ----------

  // strlen of the string in s
  ghost predicate EndsAt(s: seq<char>, n: int) {
    0 <= n < |s| && s[n] == NUL && forall i | 0 <= i < n :: s[i] != NUL
  }

  method Strlen(s: array<char>, ghost n: int) returns (len: int)
    requires EndsAt(s[..], n)
    ensures len == n
  {
    len := 0;
    while s[len] != NUL
      invariant 0 <= len <= n
      decreases n - len
    {
      len := len + 1;
    }
  }

  // The exchanges of sio_reverse (csapp.c:224-228)
  method ReverseFirst(s: array<char>, n: int)
    requires 0 <= n <= s.Length
    modifies s
    ensures forall k | 0 <= k < n :: s[k] == old(s[n - 1 - k])
    ensures forall k | n <= k < s.Length :: s[k] == old(s[k])
  {
    var i, j := 0, n - 1;
    while i < j
      invariant 0 <= i <= n && j == n - 1 - i && i <= j + 1
      invariant forall k | 0 <= k < i :: s[k] == old(s[n - 1 - k])
      invariant forall k | j < k < n :: s[k] == old(s[n - 1 - k])
      invariant forall k | i <= k <= j || n <= k < s.Length :: s[k] == old(s[k])
    {
      var c := s[i];
      s[i] := s[j];
      s[j] := c;
      i, j := i + 1, j - 1;
    }
  }

  // sio_reverse (csapp.c:220-229)
  method SioReverse(s: array<char>, ghost n: int)
    requires EndsAt(s[..], n)
    modifies s
    ensures s[..n] == Reverse(old(s[..n]))
    ensures forall k | n <= k < s.Length :: s[k] == old(s[k])
  {
    var len := Strlen(s, n);
    ReverseFirst(s, len);
  }

  // The loop of sio_ltoa (csapp.c:236-238): the digits, least significant first
  method PutDigits(v: int, s: array<char>, b: int) returns (i: int)
    requires 2 <= b <= 36 && |Digits(v, b)| < s.Length
    modifies s
    ensures i == |Digits(v, b)| && s[..i] == Digits(v, b)
    ensures forall k | i <= k < s.Length :: s[k] == old(s[k])
  {
    ghost var all, done := Digits(v, b), [DigitChar(CRem(v, b))];
    // the first round of the do-while loop, then the others
    s[0] := DigitChar(CRem(v, b));
    i := 1;
    var rest := CDiv(v, b);
    while rest > 0
      invariant 1 <= i == |done| <= |all| && s[..i] == done
      invariant done + (if rest > 0 then Digits(rest, b) else []) == all
      invariant forall k | i <= k < s.Length :: s[k] == old(s[k])
      decreases rest
    {
      var c := DigitChar(CRem(rest, b));
      NextDigit(done, rest, b);
      s[i] := c;
      done := done + [c];
      i, rest := i + 1, CDiv(rest, b);
    }
  }

  lemma NextDigit(done: seq<char>, rest: int, b: int)
    requires 2 <= b <= 36
    ensures done + Digits(rest, b) ==
      done + [DigitChar(CRem(rest, b))] + if CDiv(rest, b) > 0 then Digits(CDiv(rest, b), b) else []
  {
    var c, tail := [DigitChar(CRem(rest, b))], if CDiv(rest, b) > 0 then Digits(CDiv(rest, b), b) else [];
    assert done + (c + tail) == done + c + tail;
  }

  // sio_ltoa (csapp.c:232-241); the caller provides room for the digits and the terminator
  method SioLtoa(v: int, s: array<char>, b: int)
    requires 2 <= b <= 36 && |Digits(v, b)| < s.Length
    modifies s
    ensures var n := |Text(v, b)|; n < s.Length && s[..n] == Text(v, b) && s[n] == NUL
    ensures forall k | |Text(v, b)| < k < s.Length :: s[k] == old(s[k])
  {
    var i := PutDigits(v, s, b);
    ghost var all := s[..i];
    s[i] := NUL;
    assert s[..i] == all;
    SioReverse(s, i);
  }
}
