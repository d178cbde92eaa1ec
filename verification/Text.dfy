/** Options and the string primitives of JavaScript that the runtime leans on. */
module Prelude {
  datatype Option<+T> = None | Some(value: T)
  {
    function GetOr(default: T): T {
      if None? then default else value
    }
  }
}

/** White space, trimming, identifiers and digits, as the runtime's regular expressions see them. */
module Text {

  /** White space and line terminators of ECMAScript: what `trim` removes and `\s` matches. */
  predicate IsBlank(c: char) {
    var n := c as int;
    9 <= n <= 13 || n == 32 || n == 0xA0 || n == 0x1680 || 0x2000 <= n <= 0x200A
    || n == 0x2028 || n == 0x2029 || n == 0x202F || n == 0x205F || n == 0x3000 || n == 0xFEFF
  }

  /** Every blank there is. */
  lemma BlankExactly(c: char)
    ensures IsBlank(c) <==>
            c in "\t\n\U{0B}\U{0C}\r \U{A0}\U{1680}\U{2000}\U{2001}\U{2002}\U{2003}\U{2004}\U{2005}\U{2006}"
                 + "\U{2007}\U{2008}\U{2009}\U{200A}\U{2028}\U{2029}\U{202F}\U{205F}\U{3000}\U{FEFF}"
  {
  }

  predicate AllBlank(s: string) {
    forall i | 0 <= i < |s| :: IsBlank(s[i])
  }

  function TrimStart(s: string): string {
    if s != "" && IsBlank(s[0]) then TrimStart(s[1..]) else s
  }

  function TrimEnd(s: string): string {
    if s != "" && IsBlank(s[|s| - 1]) then TrimEnd(s[..|s| - 1]) else s
  }

  function Trim(s: string): (t: string)
    ensures |t| <= |s|
  {
    TrimStartLength(s);
    TrimEndLength(TrimStart(s));
    TrimEnd(TrimStart(s))
  }

  lemma TrimStartLength(s: string)
    ensures |TrimStart(s)| <= |s|
  {
  }

  lemma TrimEndLength(s: string)
    ensures |TrimEnd(s)| <= |s|
  {
  }

  /** A text that neither starts nor ends with a blank. */
  predicate Solid(t: string) {
    t != "" && !IsBlank(t[0]) && !IsBlank(t[|t| - 1])
  }

  lemma {:induction false} TrimStartOfPadded(pre: string, t: string)
    requires AllBlank(pre) && t != "" && !IsBlank(t[0])
    ensures TrimStart(pre + t) == t
  {
    if pre == "" {
      assert pre + t == t;
    } else {
      assert (pre + t)[1..] == pre[1..] + t;
      TrimStartOfPadded(pre[1..], t);
    }
  }

  lemma {:induction false} TrimEndOfPadded(t: string, post: string)
    requires AllBlank(post) && t != "" && !IsBlank(t[|t| - 1])
    ensures TrimEnd(t + post) == t
  {
    if post == "" {
      assert t + post == t;
    } else {
      assert (t + post)[..|t + post| - 1] == t + post[..|post| - 1];
      TrimEndOfPadded(t, post[..|post| - 1]);
    }
  }

  /** Trimming strips exactly the blanks around a solid core. */
  lemma TrimOfPadded(pre: string, t: string, post: string)
    requires AllBlank(pre) && Solid(t) && AllBlank(post)
    ensures Trim(pre + t + post) == t
  {
    assert pre + t + post == pre + (t + post);
    TrimStartOfPadded(pre, t + post);
    TrimEndOfPadded(t, post);
  }

  lemma {:induction false} TrimStartParts(s: string) returns (pre: string)
    ensures s == pre + TrimStart(s) && AllBlank(pre)
    ensures TrimStart(s) == "" || !IsBlank(TrimStart(s)[0])
    decreases |s|
  {
    pre := "";
    if s != "" && IsBlank(s[0]) {
      var head, tail := s[0], s[1..];
      assert s == [head] + tail && |tail| < |s|;
      pre := TrimStartParts(tail);
      pre := [head] + pre;
    }
  }

  lemma {:induction false} TrimEndParts(s: string) returns (post: string)
    ensures s == TrimEnd(s) + post && AllBlank(post)
    ensures TrimEnd(s) == "" || !IsBlank(TrimEnd(s)[|TrimEnd(s)| - 1])
    decreases |s|
  {
    post := "";
    if s != "" && IsBlank(s[|s| - 1]) {
      var init, last := s[..|s| - 1], s[|s| - 1];
      assert s == init + [last] && |init| < |s|;
      post := TrimEndParts(init);
      post := post + [last];
    }
  }

  /** On any text trimming takes blanks off both ends and leaves nothing or a solid core. */
  lemma TrimParts(s: string) returns (pre: string, post: string)
    ensures s == pre + Trim(s) + post && AllBlank(pre) && AllBlank(post)
    ensures Trim(s) == "" || Solid(Trim(s))
  {
    pre := TrimStartParts(s);
    post := TrimEndParts(TrimStart(s));
    assert s == pre + (Trim(s) + post);
    assert Trim(s) != "" ==> Trim(s)[0] == TrimStart(s)[0];
  }

  predicate IsDigit(c: char) { '0' <= c <= '9' }

  lemma DigitExactly(c: char)
    ensures IsDigit(c) <==> c in "0123456789"
  {
  }

  predicate IsLower(c: char) { 'a' <= c <= 'z' }

  predicate IsUpper(c: char) { 'A' <= c <= 'Z' }

  predicate IsIdentStart(c: char) { IsLower(c) || IsUpper(c) || c == '_' || c == '$' }

  predicate IsIdentPart(c: char) { IsIdentStart(c) || IsDigit(c) }

  /** How many leading characters of `s` satisfy `p`: a greedy `p*` match. */
  function RunLength(s: string, p: char -> bool): (n: nat)
    ensures n <= |s|
  {
    if s == "" || !p(s[0]) then 0 else 1 + RunLength(s[1..], p)
  }

  /** Length of a match of IDENT_RE, zero when there is none. */
  function IdentLength(s: string): (n: nat)
    ensures n <= |s|
  {
    if s == "" || !IsIdentStart(s[0]) then 0 else 1 + RunLength(s[1..], IsIdentPart)
  }

  predicate IsIdent(s: string) {
    s != "" && IdentLength(s) == |s|
  }

  predicate IsDigits(s: string) {
    s != "" && RunLength(s, IsDigit) == |s|
  }

  /** NUMBER_RE: an optional minus, digits, and optionally a point with more digits. */
  predicate IsNumber(s: string) {
    var t := if s != "" && s[0] == '-' then s[1..] else s;
    var n := RunLength(t, IsDigit);
    n > 0 && (n == |t| || (t[n] == '.' && IsDigits(t[n + 1..])))
  }

  /** A greedy run stops at the first character that does not belong to it. */
  lemma {:induction false} RunLengthConcat(s: string, rest: string, p: char -> bool)
    requires RunLength(s, p) == |s|
    requires rest == "" || !p(rest[0])
    ensures RunLength(s + rest, p) == |s|
  {
    if s == "" {
      assert s + rest == rest;
    } else {
      assert (s + rest)[1..] == s[1..] + rest;
      RunLengthConcat(s[1..], rest, p);
    }
  }

  lemma {:induction false} RunMembers(s: string, p: char -> bool)
    ensures forall i | 0 <= i < RunLength(s, p) :: p(s[i])
  {
    if s != "" && p(s[0]) {
      RunMembers(s[1..], p);
      forall i | 0 <= i < RunLength(s, p)
        ensures p(s[i])
      {
        if i > 0 { assert s[i] == s[1..][i - 1]; }
      }
    }
  }

  lemma IdentLengthConcat(s: string, rest: string)
    requires IsIdent(s)
    requires rest == "" || !IsIdentPart(rest[0])
    ensures IdentLength(s + rest) == |s|
  {
    assert (s + rest)[1..] == s[1..] + rest;
    RunLengthConcat(s[1..], rest, IsIdentPart);
  }

  lemma IdentMembers(s: string)
    requires IsIdent(s)
    ensures forall i | 0 <= i < |s| :: IsIdentPart(s[i])
  {
    RunMembers(s[1..], IsIdentPart);
    forall i | 0 <= i < |s|
      ensures IsIdentPart(s[i])
    {
      if i > 0 { assert s[i] == s[1..][i - 1]; }
    }
  }

  /** Every character of a number is a digit, the minus or the point, and the last is a digit. */
  lemma NumberMembers(s: string)
    requires IsNumber(s)
    ensures forall i | 0 <= i < |s| :: IsDigit(s[i]) || s[i] == '-' || s[i] == '.'
    ensures s != "" && IsDigit(s[|s| - 1])
  {
    var t := if s[0] == '-' then s[1..] else s;
    var n := RunLength(t, IsDigit);
    RunMembers(t, IsDigit);
    if n < |t| { RunMembers(t[n + 1..], IsDigit); }
    forall j | 0 <= j < |t|
      ensures IsDigit(t[j]) || t[j] == '.'
      ensures j == |t| - 1 ==> IsDigit(t[j])
    {
      if j > n { assert t[j] == t[n + 1..][j - n - 1]; }
    }
    forall i | 0 <= i < |s|
      ensures IsDigit(s[i]) || s[i] == '-' || s[i] == '.'
    {
      if s[0] == '-' {
        if i > 0 { assert s[i] == t[i - 1]; }
      } else {
        assert s[i] == t[i];
      }
    }
  }
}
