/** Attribute names through HTML, which lower-cases them: camel case is encoded with hyphens and decoded again. */
module AttrNames {
  import opened Text

  const CAMEL_ATTR := "sc-camel-"

  function Lower(c: char): (l: char)
    ensures IsUpper(c) ==> IsLower(l) && Upper(l) == c
    ensures !IsUpper(c) ==> l == c
  {
    if IsUpper(c) then (c as int + 32) as char else c
  }

  function Upper(c: char): char {
    if IsLower(c) then (c as int - 32) as char else c
  }

  /** What the HTML parser does to an attribute name. */
  function LowerAll(s: string): string {
    seq(|s|, i requires 0 <= i < |s| => Lower(s[i]))
  }

  /** Capitals become their small letters, place by place; nothing else changes. */
  lemma LowerAllExactly(s: string, i: nat)
    requires i < |s|
    ensures |LowerAll(s)| == |s| && !IsUpper(LowerAll(s)[i])
    ensures IsUpper(s[i]) ==> IsLower(LowerAll(s)[i]) && Upper(LowerAll(s)[i]) == s[i]
    ensures !IsUpper(s[i]) ==> LowerAll(s)[i] == s[i]
  {
  }

  /** Each capital becomes a hyphen and its small letter. */
  function Hyphenate(name: string): string {
    if name == "" then ""
    else (if IsUpper(name[0]) then ['-', Lower(name[0])] else [name[0]]) + Hyphenate(name[1..])
  }

  /** `kebabToCamel`: each hyphen with a small letter behind it becomes the capital. */
  function KebabToCamel(s: string): string
    decreases |s|
  {
    if s == "" then ""
    else if s[0] == '-' && |s| > 1 && IsLower(s[1]) then [Upper(s[1])] + KebabToCamel(s[2..])
    else [s[0]] + KebabToCamel(s[1..])
  }

  function EncodeAttr(name: string): string {
    CAMEL_ATTR + Hyphenate(name)
  }

  function DecodeAttr(attr: string): string {
    if CAMEL_ATTR <= attr then KebabToCamel(attr[|CAMEL_ATTR|..]) else attr
  }

  /** Names that CAMEL_ATTR_RE picks out: small letters, a capital, then letters and digits. */
  predicate IsCamel(name: string) {
    var n := RunLength(name, IsLower);
    && 0 < n < |name| && IsUpper(name[n])
    && forall i | n < i < |name| :: IsAlnum(name[i])
  }

  predicate IsAlnum(c: char) {
    IsLower(c) || IsUpper(c) || IsDigit(c)
  }

  /** Small letters, one capital, and letters or digits. */
  predicate CamelParts(a: string, u: char, rest: string) {
    && a != "" && (forall i | 0 <= i < |a| :: IsLower(a[i])) && IsUpper(u)
    && forall i | 0 <= i < |rest| :: IsAlnum(rest[i])
  }

  lemma {:induction false} RunOf(a: string, rest: string, p: char -> bool)
    requires (forall i | 0 <= i < |a| :: p(a[i])) && (rest == "" || !p(rest[0]))
    ensures RunLength(a + rest, p) == |a|
  {
    if a == "" {
      assert a + rest == rest;
    } else {
      assert (a + rest)[1..] == a[1..] + rest;
      RunOf(a[1..], rest, p);
    }
  }

  /** The pattern picks out exactly the names that consist of such parts. */
  lemma CamelExactly(name: string)
    ensures IsCamel(name) <==> exists a, u, rest :: CamelParts(a, u, rest) && name == a + [u] + rest
  {
    var n := RunLength(name, IsLower);
    if IsCamel(name) {
      RunMembers(name, IsLower);
      assert CamelParts(name[..n], name[n], name[n + 1..]);
      assert name == name[..n] + [name[n]] + name[n + 1..];
    }
    if a, u, rest :| CamelParts(a, u, rest) && name == a + [u] + rest {
      assert name == a + ([u] + rest);
      RunOf(a, [u] + rest, IsLower);
      forall i | n < i < |name| ensures IsAlnum(name[i]) { assert name[i] == rest[i - n - 1]; }
    }
  }

  /** A hyphen with a small letter behind it: text that decoding would change. */
  predicate KebabAt(s: string, i: int) {
    0 <= i && i + 1 < |s| && s[i] == '-' && IsLower(s[i + 1])
  }

  /** Decoding undoes encoding exactly for the names without such a hyphen. */
  lemma {:induction false} HyphenateRoundTrip(s: string)
    ensures KebabToCamel(Hyphenate(s)) == s <==> forall i | 0 <= i < |s| :: !KebabAt(s, i)
    decreases |s|
  {
    if s != "" {
      HyphenateRoundTrip(s[1..]);
      KebabTail(s);
      DecodeHead(s);
    }
  }

  /** What encoding and decoding do to the first character. */
  lemma DecodeHead(s: string)
    requires s != ""
    ensures var d := KebabToCamel(Hyphenate(s));
            if KebabAt(s, 0) then d != s
            else d == [s[0]] + KebabToCamel(Hyphenate(s[1..]))
  {
    var rest := Hyphenate(s[1..]);
    if IsUpper(s[0]) {
      HyphenCapital(Lower(s[0]), rest);
    } else {
      assert Hyphenate(s) == [s[0]] + rest;
      if KebabAt(s, 0) {
        assert rest[0] == s[1];
        HyphenCapital(s[1], rest[1..]);
        assert Hyphenate(s) == ['-', s[1]] + rest[1..];
      } else {
        assert Hyphenate(s)[1..] == rest;
        assert |s| > 1 ==> rest[0] == s[1] || rest[0] == '-';
      }
    }
  }

  lemma HyphenCapital(l: char, rest: string)
    requires IsLower(l)
    ensures KebabToCamel(['-', l] + rest) == [Upper(l)] + KebabToCamel(rest)
  {
    assert (['-', l] + rest)[2..] == rest;
  }

  lemma KebabTail(s: string)
    requires s != ""
    ensures (forall i | 0 <= i < |s| :: !KebabAt(s, i)) <==>
            !KebabAt(s, 0) && forall i | 0 <= i < |s[1..]| :: !KebabAt(s[1..], i)
  {
    assert forall i | 0 <= i < |s[1..]| :: KebabAt(s[1..], i) == KebabAt(s, i + 1);
    if !KebabAt(s, 0) && forall i | 0 <= i < |s[1..]| :: !KebabAt(s[1..], i) {
      forall i | 0 <= i < |s| ensures !KebabAt(s, i) {
        if i > 0 { assert !KebabAt(s[1..], i - 1); }
      }
    }
  }

  lemma {:induction false} HyphenateIsSmall(s: string)
    ensures forall i | 0 <= i < |Hyphenate(s)| :: !IsUpper(Hyphenate(s)[i])
  {
    if s != "" { HyphenateIsSmall(s[1..]); }
  }

  /** Every camel-case attribute survives the HTML parser and comes back as it was written. */
  lemma CamelSurvivesHtml(name: string)
    requires IsCamel(name)
    ensures LowerAll(EncodeAttr(name)) == EncodeAttr(name)
    ensures DecodeAttr(LowerAll(EncodeAttr(name))) == name
  {
    var attr := EncodeAttr(name);
    HyphenateIsSmall(name);
    RunMembers(name, IsLower);
    HyphenateRoundTrip(name);
    assert attr[|CAMEL_ATTR|..] == Hyphenate(name);
  }
}
