/**
 * The string operations of Rust's standard library that the permutation and polynomial
 * code relies on: str::trim, str::split, slice::join, usize::to_string and usize::from_str.
 * Text is restricted to ASCII here.
 */
module Text {
  import opened Wrappers

  /** ASCII white space: tab, line feed, vertical tab, form feed, carriage return and space. */
  predicate IsSpace(ch: char)
  {
    ch == ' ' || '\t' <= ch <= '\r'
  }

  /** str::trim_start: s without its leading white space. */
  function TrimStart(s: string): (t: string)
    ensures |t| <= |s|
  {
    if s != [] && IsSpace(s[0]) then TrimStart(s[1..]) else s
  }

  /** str::trim_end: s without its trailing white space. */
  function TrimEnd(s: string): (t: string)
    ensures |t| <= |s|
  {
    if s != [] && IsSpace(s[|s| - 1]) then TrimEnd(s[..|s| - 1]) else s
  }

  /** Neither the first nor the last character is white space. */
  predicate Unpadded(t: string)
  {
    t == [] || (!IsSpace(t[0]) && !IsSpace(t[|t| - 1]))
  }

  /** str::trim: s without its leading and trailing white space. */
  function Trim(s: string): string
  {
    TrimEnd(TrimStart(s))
  }

  /** Only white space goes: the rest is a suffix of s that does not start with white space. */
  lemma {:induction false} TrimStartSpec(s: string)
    ensures TrimStart(s) == s[|s| - |TrimStart(s)|..]
    ensures TrimStart(s) == [] || !IsSpace(TrimStart(s)[0])
    ensures forall k :: 0 <= k < |s| - |TrimStart(s)| ==> IsSpace(s[k])
  {
    if s != [] && IsSpace(s[0]) {
      TrimStartSpec(s[1..]);
      var t := TrimStart(s[1..]);
      assert TrimStart(s) == t;
      forall k | 0 <= k < |s| - |t| ensures IsSpace(s[k]) {
        if k > 0 {
          assert s[k] == s[1..][k - 1];
        }
      }
    }
  }

  /** Only white space goes: the rest is a prefix of s that does not end with white space. */
  lemma {:induction false} TrimEndSpec(s: string)
    ensures TrimEnd(s) == s[..|TrimEnd(s)|]
    ensures TrimEnd(s) == [] || !IsSpace(TrimEnd(s)[|TrimEnd(s)| - 1])
    ensures forall k :: |TrimEnd(s)| <= k < |s| ==> IsSpace(s[k])
  {
    if s != [] && IsSpace(s[|s| - 1]) {
      TrimEndSpec(s[..|s| - 1]);
      var t := TrimEnd(s[..|s| - 1]);
      assert TrimEnd(s) == t;
      forall k | |t| <= k < |s| ensures IsSpace(s[k]) {
        if k < |s| - 1 {
          assert s[k] == s[..|s| - 1][k];
        }
      }
    }
  }

  /**
   * Trimming cuts away white space only: the result is the slice of s that starts after the
   * leading white space, everything before and after it is white space, and the result
   * neither starts nor ends with white space.
   */
  lemma TrimSpec(s: string)
    ensures |s| - |TrimStart(s)| + |Trim(s)| <= |s|
    ensures Trim(s) == s[|s| - |TrimStart(s)| .. |s| - |TrimStart(s)| + |Trim(s)|]
    ensures forall k :: 0 <= k < |s| - |TrimStart(s)| ==> IsSpace(s[k])
    ensures forall k :: |s| - |TrimStart(s)| + |Trim(s)| <= k < |s| ==> IsSpace(s[k])
    ensures Unpadded(Trim(s))
  {
    var a := TrimStart(s);
    var t := TrimEnd(a);
    TrimStartSpec(s);
    TrimEndSpec(a);
    assert Trim(s) == t;
    TrimSlice(s, a, |s| - |a|, t);
    TrimEnds(a, t);
  }

  lemma TrimEnds(a: string, t: string)
    requires a == [] || !IsSpace(a[0])
    requires |t| <= |a| && t == a[..|t|]
    requires t == [] || !IsSpace(t[|t| - 1])
    ensures Unpadded(t)
  {
    if t != [] {
      assert t[0] == a[0];
    }
  }

  lemma TrimSlice(s: string, a: string, lo: nat, t: string)
    requires lo <= |s| && a == s[lo..]
    requires |t| <= |a| && t == a[..|t|]
    requires forall k :: |t| <= k < |a| ==> IsSpace(a[k])
    ensures lo + |t| <= |s| && t == s[lo .. lo + |t|]
    ensures forall k :: lo + |t| <= k < |s| ==> IsSpace(s[k])
  {
    forall k | lo + |t| <= k < |s| ensures IsSpace(s[k]) {
      assert s[k] == a[k - lo];
    }
  }

  /** Leading or trailing white space does not survive trimming. */
  lemma {:induction false} TrimPadded(pad: string, s: string)
    requires forall k :: 0 <= k < |pad| ==> IsSpace(pad[k])
    requires s != [] && !IsSpace(s[0]) && !IsSpace(s[|s| - 1])
    ensures Trim(pad + s) == s && Trim(s + pad) == s
  {
    TrimStartPadded(pad, s);
    TrimEndPadded(s, pad);
  }

  lemma {:induction false} TrimStartPadded(pad: string, s: string)
    requires forall k :: 0 <= k < |pad| ==> IsSpace(pad[k])
    requires s == [] || !IsSpace(s[0])
    ensures TrimStart(pad + s) == s
  {
    if pad != [] {
      assert (pad + s)[1..] == pad[1..] + s;
      TrimStartPadded(pad[1..], s);
    } else {
      assert pad + s == s;
    }
  }

  lemma {:induction false} TrimEndPadded(s: string, pad: string)
    requires forall k :: 0 <= k < |pad| ==> IsSpace(pad[k])
    requires s == [] || !IsSpace(s[|s| - 1])
    ensures TrimEnd(s + pad) == s
  {
    if pad != [] {
      assert (s + pad)[..|s + pad| - 1] == s + pad[..|pad| - 1];
      TrimEndPadded(s, pad[..|pad| - 1]);
    } else {
      assert s + pad == s;
    }
  }

  predicate IsDigit(ch: char)
  {
    '0' <= ch <= '9'
  }

  predicate AllDigits(s: string)
  {
    forall k :: 0 <= k < |s| ==> IsDigit(s[k])
  }

  /** The value of a string of decimal digits, most significant first. */
  function DigitsValue(s: string): nat
    requires AllDigits(s)
  {
    if s == [] then 0
    else DigitsValue(s[..|s| - 1]) * 10 + (s[|s| - 1] as int - '0' as int)
  }

  /** usize::from_str on a token: a non-empty string of ASCII digits, else an error. */
  function ParseNat(s: string): (r: Option<nat>)
    ensures r.Some? <==> s != [] && AllDigits(s)
  {
    if s != [] && AllDigits(s) then Some(DigitsValue(s)) else None
  }

  function DigitChar(d: nat): (ch: char)
    requires d < 10
    ensures IsDigit(ch) && ch as int - '0' as int == d
  {
    ('0' as int + d) as char
  }

  /** usize::to_string: decimal digits without leading zeros. */
  function NatToString(n: nat): (s: string)
    ensures s != [] && AllDigits(s)
    ensures s[0] != '0' || n == 0
  {
    if n < 10 then [DigitChar(n)] else NatToString(n / 10) + [DigitChar(n % 10)]
  }

  /** Printing a number then parsing it gives the number back. */
  lemma {:induction false} ParseNatToString(n: nat)
    ensures ParseNat(NatToString(n)) == Some(n)
    ensures DigitsValue(NatToString(n)) == n
  {
    var s := NatToString(n);
    if n >= 10 {
      ParseNatToString(n / 10);
      assert s[..|s| - 1] == NatToString(n / 10);
    } else {
      assert s[..|s| - 1] == [];
      assert DigitsValue(s) == DigitsValue([]) * 10 + (s[0] as int - '0' as int);
    }
  }

  /** slice::join: the parts with sep between consecutive ones. */
  function Join(parts: seq<string>, sep: string): string
  {
    if parts == [] then ""
    else if |parts| == 1 then parts[0]
    else parts[0] + sep + Join(parts[1..], sep)
  }

  /** pat occurs in s at position j. */
  predicate MatchAt(s: string, pat: string, j: nat)
  {
    j + |pat| <= |s| && s[j .. j + |pat|] == pat
  }

  /** The first position at or after k where pat occurs in s. */
  function FindFrom(s: string, pat: string, k: nat): (r: Option<nat>)
    requires pat != []
    ensures r.Some? ==> k <= r.value && MatchAt(s, pat, r.value)
    ensures r.Some? ==> forall j :: k <= j < r.value ==> !MatchAt(s, pat, j)
    ensures r.None? ==> forall j :: k <= j ==> !MatchAt(s, pat, j)
    decreases |s| - k
  {
    if k + |pat| > |s| then None
    else if s[k .. k + |pat|] == pat then Some(k)
    else FindFrom(s, pat, k + 1)
  }

  /**
   * str::split on a non-empty pattern: the pieces between successive leftmost,
   * non-overlapping occurrences of delim.  Joining the pieces with delim restores s.
   */
  function Split(s: string, delim: string): (pieces: seq<string>)
    requires delim != []
    ensures |pieces| >= 1
    ensures Join(pieces, delim) == s
    decreases |s|
  {
    match FindFrom(s, delim, 0)
    case None => [s]
    case Some(k) =>
      var rest := Split(s[k + |delim|..], delim);
      assert s == s[..k] + delim + s[k + |delim|..];
      [s[..k]] + rest
  }

  predicate Lacks(s: string, ch: char)
  {
    forall k :: 0 <= k < |s| ==> s[k] != ch
  }

  lemma LacksConcat(a: string, b: string, ch: char)
    requires Lacks(a, ch) && Lacks(b, ch)
    ensures Lacks(a + b, ch)
  {
    forall k | 0 <= k < |a + b| ensures (a + b)[k] != ch {
      if k < |a| {
        assert (a + b)[k] == a[k];
      } else {
        assert (a + b)[k] == b[k - |a|];
      }
    }
  }

  /** A string without the delimiter character splits into itself alone. */
  lemma SplitNone(a: string, d: char)
    requires Lacks(a, d)
    ensures Split(a, [d]) == [a]
  {
    forall j | 0 <= j ensures !MatchAt(a, [d], j) {
      if j + 1 <= |a| {
        assert a[j .. j + 1] == [a[j]];
      }
    }
    NoMatchFrom(a, [d], 0);
  }

  /** Splitting stops at the first delimiter. */
  lemma SplitFirst(a: string, d: char, b: string)
    requires Lacks(a, d)
    ensures Split(a + [d] + b, [d]) == [a] + Split(b, [d])
  {
    var s := a + [d] + b;
    assert MatchAt(s, [d], |a|) by { assert s[|a| .. |a| + 1] == [d]; }
    forall j | 0 <= j < |a| ensures !MatchAt(s, [d], j) {
      assert s[j .. j + 1] == [a[j]];
    }
    FirstMatchFrom(s, [d], |a|, 0);
    assert s[..|a|] == a && s[|a| + 1..] == b;
  }

  lemma {:induction false} NoMatchFrom(s: string, pat: string, k: nat)
    requires pat != []
    requires forall j :: k <= j ==> !MatchAt(s, pat, j)
    ensures FindFrom(s, pat, k).None?
    decreases |s| - k
  {
    if k + |pat| <= |s| {
      NoMatchFrom(s, pat, k + 1);
    }
  }

  lemma {:induction false} FirstMatchFrom(s: string, pat: string, m: nat, k: nat)
    requires pat != [] && k <= m && MatchAt(s, pat, m)
    requires forall j :: k <= j < m ==> !MatchAt(s, pat, j)
    ensures FindFrom(s, pat, k) == Some(m)
    decreases m - k
  {
    if k < m {
      FirstMatchFrom(s, pat, m, k + 1);
    }
  }

  /** Splitting on a one-character delimiter undoes joining parts that do not contain it. */
  lemma {:induction false} SplitJoin(parts: seq<string>, d: char)
    requires |parts| >= 1
    requires forall k :: 0 <= k < |parts| ==> Lacks(parts[k], d)
    ensures Split(Join(parts, [d]), [d]) == parts
  {
    if |parts| == 1 {
      SplitNone(parts[0], d);
    } else {
      SplitJoin(parts[1..], d);
      SplitFirst(parts[0], d, Join(parts[1..], [d]));
    }
  }

  /** The parts as they appear between one-character delimiters when the separator is d followed by pad. */
  function Padded(parts: seq<string>, pad: string): (qs: seq<string>)
    requires |parts| >= 1
    ensures |qs| == |parts| && qs[0] == parts[0]
    ensures forall k :: 1 <= k < |parts| ==> qs[k] == pad + parts[k]
  {
    [parts[0]] + seq(|parts| - 1, k requires 0 <= k < |parts| - 1 => pad + parts[k + 1])
  }

  lemma JoinFront(x: string, qs: seq<string>, sep: string)
    requires |qs| >= 1
    ensures x + Join(qs, sep) == Join([x + qs[0]] + qs[1..], sep)
  {
    var q' := [x + qs[0]] + qs[1..];
    assert q'[1..] == qs[1..];
    if |qs| == 1 {
    } else {
      assert x + (qs[0] + sep + Join(qs[1..], sep)) == (x + qs[0]) + sep + Join(qs[1..], sep);
    }
  }

  /** Joining with the separator d + pad is joining the padded parts with d alone. */
  lemma {:induction false} JoinPadded(parts: seq<string>, d: char, pad: string)
    requires |parts| >= 1
    ensures Join(parts, [d] + pad) == Join(Padded(parts, pad), [d])
  {
    if |parts| > 1 {
      JoinPadded(parts[1..], d, pad);
      var tail := Padded(parts[1..], pad);
      JoinFront(pad, tail, [d]);
      var qs := Padded(parts, pad);
      assert qs[1..] == [pad + tail[0]] + tail[1..];
      assert Join(parts, [d] + pad) == parts[0] + [d] + (pad + Join(tail, [d]));
    }
  }

  /** The number of occurrences of ch in s. */
  function CountChar(s: string, ch: char): nat
  {
    if s == [] then 0 else (if s[0] == ch then 1 else 0) + CountChar(s[1..], ch)
  }

  lemma {:induction false} CountCharConcat(a: string, b: string, ch: char)
    ensures CountChar(a + b, ch) == CountChar(a, ch) + CountChar(b, ch)
  {
    if a != [] {
      assert (a + b)[1..] == a[1..] + b;
      CountCharConcat(a[1..], b, ch);
    } else {
      assert a + b == b;
    }
  }
}
