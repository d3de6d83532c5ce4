/** The pieces of Python string behaviour the write-ahead log relies on:
    `str.strip()`, `str.split("|")`, joining with a separator, decimal
    formatting of integers (`f"{ttl}"`), `int(text)`, and reading a text file
    line by line with universal newlines. */
module PyText {
  import opened Wrappers
  import opened Seqs

  // ------------------------------------------------------------------
  // Whitespace, strip() and the blanks int() skips

  /** `str.isspace()` for one code point: the characters `strip()` removes. */
  predicate IsSpace(c: char) {
    var n := c as int;
    || 9 <= n <= 13 || 28 <= n <= 32 || n == 0x85 || n == 0xA0 || n == 0x1680
    || 0x2000 <= n <= 0x200A || n == 0x2028 || n == 0x2029 || n == 0x202F
    || n == 0x205F || n == 0x3000
  }

  /** The blanks `int()` skips around its digits. CPython turns every
      non-ASCII `str.isspace()` character into a space, keeps ASCII as it is,
      and then skips only space, tab, "\n", "\v", "\f" and "\r"; so the four
      ASCII separators U+001C..U+001F, blanks for `strip()`, are not blanks
      for `int()`. */
  predicate IsIntSpace(c: char) {
    IsSpace(c) && !(0x1C <= c as int <= 0x1F)
  }

  /** Every character of `s` is `blank`. */
  predicate AllOf(s: string, blank: char -> bool) {
    forall i :: 0 <= i < |s| ==> blank(s[i])
  }

  predicate AllSpace(s: string) {
    AllOf(s, IsSpace)
  }

  /** Number of `blank` characters at the start of `s`. */
  function LeadingRun(s: string, blank: char -> bool): (n: nat)
    ensures n <= |s| && AllOf(s[..n], blank)
    ensures n < |s| ==> !blank(s[n])
  {
    if |s| == 0 || !blank(s[0]) then 0
    else
      var n := 1 + LeadingRun(s[1..], blank);
      assert forall i :: 1 <= i < n ==> s[..n][i] == s[1..][..n - 1][i - 1];
      n
  }

  /** Number of `blank` characters at the end of `s`. */
  function TrailingRun(s: string, blank: char -> bool): (n: nat)
    ensures n <= |s| && AllOf(s[|s| - n..], blank)
    ensures n < |s| ==> !blank(s[|s| - n - 1])
  {
    if |s| == 0 || !blank(s[|s| - 1]) then 0
    else
      var t := s[..|s| - 1];
      var m := TrailingRun(t, blank);
      LongerRun(s, m, blank);
      m + 1
  }

  /** A blank last character extends the run of blanks before it by one. */
  lemma LongerRun(s: string, m: nat, blank: char -> bool)
    requires |s| > 0 && blank(s[|s| - 1]) && m < |s|
    requires AllOf(s[..|s| - 1][|s| - 1 - m..], blank)
    requires m < |s| - 1 ==> !blank(s[..|s| - 1][|s| - 2 - m])
    ensures AllOf(s[|s| - (m + 1)..], blank)
    ensures m + 1 < |s| ==> !blank(s[|s| - (m + 1) - 1])
  {
    assert s[|s| - (m + 1)..] == s[..|s| - 1][|s| - 1 - m..] + [s[|s| - 1]];
  }

  /** `s` without the `blank` characters at either end: the part from the
      first to the last character that is not blank, surrounded in `s` by
      blanks only. */
  function Trim(s: string, blank: char -> bool): (r: string)
    ensures |r| == 0 <==> AllOf(s, blank)
    ensures |r| > 0 ==> !blank(r[0]) && !blank(r[|r| - 1])
    ensures var a := LeadingRun(s, blank);
      && a + |r| <= |s| && r == s[a..a + |r|]
      && AllOf(s[..a], blank) && AllOf(s[a + |r|..], blank)
  {
    var a := LeadingRun(s, blank);
    var l := s[a..];
    var b := TrailingRun(l, blank);
    Trimmed(s, a, l, b, blank);
    l[..|l| - b]
  }

  /** Cutting a run of `a` blanks from the front of `s` and then a run of
      `b` blanks from the back leaves the text between its blank ends. */
  lemma Trimmed(s: string, a: nat, l: string, b: nat, blank: char -> bool)
    requires a <= |s| && AllOf(s[..a], blank) && (a < |s| ==> !blank(s[a]))
    requires l == s[a..]
    requires b <= |l| && AllOf(l[|l| - b..], blank) && (b < |l| ==> !blank(l[|l| - b - 1]))
    ensures var r := l[..|l| - b];
      && (|r| == 0 <==> AllOf(s, blank))
      && (|r| > 0 ==> !blank(r[0]) && !blank(r[|r| - 1]))
      && a + |r| <= |s| && r == s[a..a + |r|]
      && AllOf(s[..a], blank) && AllOf(s[a + |r|..], blank)
  {
    var r := l[..|l| - b];
    assert |r| == 0 ==> AllOf(s, blank) by {
      if |r| == 0 {
        assert a == |s|;
        assert s[..a] == s;
      }
    }
    assert |r| > 0 ==> r[0] == s[a] && r[|r| - 1] == l[|l| - b - 1];
    assert s[a + |r|..] == l[|l| - b..];
  }

  /** Trimming a text that is not blank at either end, with blanks around
      it, gives back that text. */
  lemma {:induction false} TrimSurrounded(pre: string, m: string, post: string, blank: char -> bool)
    requires AllOf(pre, blank) && AllOf(post, blank)
    requires |m| > 0 && !blank(m[0]) && !blank(m[|m| - 1])
    ensures Trim(pre + m + post, blank) == m
  {
    var s := pre + m + post;
    var p := |pre|;
    assert s[p..p + |m|] == m;
    assert s[p] == m[0] && s[p + |m| - 1] == m[|m| - 1];
    assert forall i :: p + |m| <= i < |s| ==> s[i] == post[i - p - |m|];
    var r := Trim(s, blank);
    LeadingRunAt(s, p, blank);
    assert |r| == |m|;
  }

  /** The run of blanks at the start ends at the first character that is not one. */
  lemma LeadingRunAt(s: string, i: nat, blank: char -> bool)
    requires i < |s| && AllOf(s[..i], blank) && !blank(s[i])
    ensures LeadingRun(s, blank) == i
  {
  }

  /** `str.strip()`: the text between leading and trailing whitespace. */
  function Strip(s: string): (r: string)
    ensures |r| == 0 <==> AllSpace(s)
    ensures |r| > 0 ==> !IsSpace(r[0]) && !IsSpace(r[|r| - 1])
    ensures var a := LeadingRun(s, IsSpace);
      a + |r| <= |s| && r == s[a..a + |r|] && AllSpace(s[..a]) && AllSpace(s[a + |r|..])
  {
    Trim(s, IsSpace)
  }

  /** Stripping a text that does not start or end with whitespace, with
      whitespace around it, gives back that text. */
  lemma StripSurrounded(pre: string, m: string, post: string)
    requires AllSpace(pre) && AllSpace(post)
    requires |m| > 0 && !IsSpace(m[0]) && !IsSpace(m[|m| - 1])
    ensures Strip(pre + m + post) == m
  {
    TrimSurrounded(pre, m, post, IsSpace);
  }

  /** `str.rstrip()`: the text without its trailing whitespace. */
  function StripEnd(s: string): (r: string)
    ensures |r| <= |s| && r == s[..|r|] && AllSpace(s[|r|..])
    ensures |r| > 0 ==> !IsSpace(r[|r| - 1])
  {
    s[..|s| - TrailingRun(s, IsSpace)]
  }

  // ------------------------------------------------------------------
  // split and join on one separator character

  /** Index of the first `c` in `s`, or `|s|` if there is none. */
  function IndexOf(s: string, c: char): (i: nat)
    ensures i <= |s|
    ensures forall j :: 0 <= j < i ==> s[j] != c
    ensures i < |s| ==> s[i] == c
  {
    if |s| == 0 || s[0] == c then 0 else 1 + IndexOf(s[1..], c)
  }

  /** `sep.join(parts)`. */
  function Join(parts: seq<string>, sep: char): string {
    if |parts| == 0 then ""
    else if |parts| == 1 then parts[0]
    else parts[0] + [sep] + Join(parts[1..], sep)
  }

  /** `s.split(sep)`: the pieces between separators; never empty. */
  function Split(s: string, sep: char): (parts: seq<string>)
    ensures |parts| >= 1
    ensures forall i :: 0 <= i < |parts| ==> sep !in parts[i]
    ensures Join(parts, sep) == s
    decreases |s|
  {
    var i := IndexOf(s, sep);
    if i == |s| then
      assert sep !in s;
      [s]
    else
      var rest := Split(s[i + 1..], sep);
      assert sep !in s[..i];
      assert ([s[..i]] + rest)[1..] == rest;
      assert s == s[..i] + [sep] + s[i + 1..];
      [s[..i]] + rest
  }

  /** One more piece joins on after a separator. */
  lemma {:induction false} JoinSnoc(parts: seq<string>, sep: char, x: string)
    requires |parts| >= 1
    ensures Join(parts + [x], sep) == Join(parts, sep) + [sep] + x
    decreases |parts|
  {
    var q := parts + [x];
    if |parts| == 1 {
      assert q[1..] == [x];
    } else {
      assert q[1..] == parts[1..] + [x];
      JoinSnoc(parts[1..], sep, x);
      Regroup4(parts[0], [sep], Join(parts[1..], sep), [sep] + x);
    }
  }

  lemma Regroup4(a: string, b: string, c: string, d: string)
    ensures a + b + (c + d) == a + b + c + d
  {
  }

  /** Splitting joined pieces that do not contain the separator gives them back. */
  lemma {:induction false} SplitJoin(parts: seq<string>, sep: char)
    requires |parts| >= 1
    requires forall i :: 0 <= i < |parts| ==> sep !in parts[i]
    ensures Split(Join(parts, sep), sep) == parts
    decreases |parts|
  {
    var p := parts[0];
    assert sep !in p;
    if |parts| == 1 {
      assert IndexOf(p, sep) == |p|;
    } else {
      JoinFirstPart(parts, sep);
      SplitJoin(parts[1..], sep);
      assert parts == [p] + parts[1..];
    }
  }

  /** In a join of several pieces, the first separator ends the first piece. */
  lemma JoinFirstPart(parts: seq<string>, sep: char)
    requires |parts| >= 2 && sep !in parts[0]
    ensures var s := Join(parts, sep);
      && IndexOf(s, sep) == |parts[0]| < |s|
      && s[..|parts[0]|] == parts[0]
      && s[|parts[0]| + 1..] == Join(parts[1..], sep)
  {
    var p := parts[0];
    var s := Join(parts, sep);
    assert s == p + [sep] + Join(parts[1..], sep);
    assert s[|p|] == sep;
    forall j | 0 <= j < |p| ensures s[j] != sep {
      assert s[j] == p[j];
    }
    IndexOfFirst(s, sep, |p|);
    assert s[..|p|] == p;
  }

  /** Joining pieces without line breaks on a separator that is not one
      gives a text without line breaks. */
  lemma {:induction false} JoinNoLineBreak(parts: seq<string>, sep: char)
    requires !IsLineBreak(sep)
    requires forall i :: 0 <= i < |parts| ==> NoLineBreak(parts[i])
    ensures NoLineBreak(Join(parts, sep))
    decreases |parts|
  {
    if |parts| > 1 {
      JoinNoLineBreak(parts[1..], sep);
      var j := Join(parts[1..], sep);
      var s := parts[0] + [sep] + j;
      forall i | 0 <= i < |s| ensures !IsLineBreak(s[i]) {
        if i > |parts[0]| {
          assert s[i] == j[i - |parts[0]| - 1];
        }
      }
    }
  }

  lemma IndexOfFirst(s: string, c: char, k: nat)
    requires k < |s| && s[k] == c && forall j :: 0 <= j < k ==> s[j] != c
    ensures IndexOf(s, c) == k
  {
  }

  // ------------------------------------------------------------------
  // Decimal integers

  predicate IsDigit(c: char) {
    '0' <= c <= '9'
  }

  predicate AllDigits(s: string) {
    forall i :: 0 <= i < |s| ==> IsDigit(s[i])
  }

  function DigitChar(d: nat): (c: char)
    requires d < 10
    ensures IsDigit(c) && c as int - '0' as int == d
  {
    (('0' as int) + d) as char
  }

  /** The value of a string of decimal digits (leading zeros allowed). */
  function DigitsValue(s: string): nat
    requires AllDigits(s)
  {
    if |s| == 0 then 0
    else DigitsValue(s[..|s| - 1]) * 10 + (s[|s| - 1] as int - '0' as int)
  }

  /** Decimal text of a natural number, without leading zeros. */
  function NatToString(n: nat): (s: string)
    ensures |s| >= 1 && AllDigits(s)
    ensures s[0] == '0' <==> n == 0
    ensures n == 0 ==> s == "0"
    decreases n
  {
    if n < 10 then [DigitChar(n)] else NatToString(n / 10) + [DigitChar(n % 10)]
  }

  /** `str(i)` / `f"{i}"` for an integer. */
  function IntToString(i: int): (s: string)
    ensures |s| >= 1 && !IsSpace(s[0]) && IsDigit(s[|s| - 1])
    ensures forall j :: 0 <= j < |s| ==> IsDigit(s[j]) || (j == 0 && s[j] == '-')
    ensures i < 0 <==> s[0] == '-'
    ensures s[0] == '0' ==> s == "0"
    ensures |s| > 1 && s[0] == '-' ==> s[1] != '0'
  {
    if i < 0 then "-" + NatToString(-i) else NatToString(i)
  }

  lemma {:induction false} NatToStringValue(n: nat)
    ensures DigitsValue(NatToString(n)) == n
    decreases n
  {
    var s := NatToString(n);
    if n >= 10 {
      NatToStringValue(n / 10);
      assert s[..|s| - 1] == NatToString(n / 10);
    }
  }

  /** Digit groups as `int()` accepts them: digits with single underscores
      between them, e.g. "1_000". */
  predicate DigitGroups(d: string) {
    && |d| > 0 && IsDigit(d[0]) && IsDigit(d[|d| - 1])
    && (forall i :: 0 <= i < |d| ==> IsDigit(d[i]) || d[i] == '_')
    && (forall i :: 0 <= i < |d| - 1 ==> d[i] != '_' || d[i + 1] != '_')
  }

  function DropUnderscores(d: string): (r: string)
    requires forall i :: 0 <= i < |d| ==> IsDigit(d[i]) || d[i] == '_'
    ensures AllDigits(r)
    ensures AllDigits(d) ==> r == d
  {
    if |d| == 0 then ""
    else if d[0] == '_' then DropUnderscores(d[1..])
    else [d[0]] + DropUnderscores(d[1..])
  }

  /** `int(text)` in base 10: blanks `int()` skips, an optional sign, then
      digit groups, then blanks; anything else is a `ValueError` (None here). */
  function ParseInt(text: string): (r: Option<int>)
    ensures AllOf(text, IsIntSpace) ==> r.None?
    ensures r.Some? ==> exists i :: 0 <= i < |text| && IsDigit(text[i])
  {
    var t := Trim(text, IsIntSpace);
    var a := LeadingRun(text, IsIntSpace);
    var r := ParseSigned(t);
    assert r.Some? ==> IsDigit(text[a + |t| - 1]);
    r
  }

  /** `int()` once the blanks are gone: an optional sign, then digit groups. */
  function ParseSigned(t: string): (r: Option<int>)
    ensures r.Some? ==> |t| > 0 && IsDigit(t[|t| - 1])
    ensures r.Some? ==> (r.value < 0 ==> t[0] == '-')
  {
    var negative := |t| > 0 && t[0] == '-';
    var body := if |t| > 0 && (t[0] == '-' || t[0] == '+') then t[1..] else t;
    if DigitGroups(body) then
      var n: int := DigitsValue(DropUnderscores(body));
      assert body[|body| - 1] == t[|t| - 1];
      Some(if negative then -n else n)
    else None
  }

  /** `int()` rejects a text whose first character that is not a blank for
      `int()` is neither a digit nor a sign. */
  lemma ParseIntNeedsDigit(text: string, i: nat)
    requires i < |text| && AllOf(text[..i], IsIntSpace) && !IsIntSpace(text[i])
    requires !IsDigit(text[i]) && text[i] != '-' && text[i] != '+'
    ensures ParseInt(text) == None
  {
    LeadingRunAt(text, i, IsIntSpace);
    var t := Trim(text, IsIntSpace);
    assert t[0] == text[i];
  }

  /** `strip()` removes the separator U+001C, but `int()` does not skip it:
      `int("\x1c5")` raises, while `int(" 5\n")` is 5. */
  lemma SeparatorBeforeDigits()
    ensures Strip("\U{1C}5") == "5"
    ensures ParseInt("\U{1C}5") == None
    ensures ParseInt(" 5\n") == Some(5)
  {
    SeparatorStripped();
    SeparatorRejected();
    BlanksSkipped();
  }

  lemma SeparatorStripped()
    ensures Strip("\U{1C}5") == "5"
  {
    StripSurrounded("\U{1C}", "5", "");
    assert "\U{1C}" + "5" + "" == "\U{1C}5";
  }

  lemma SeparatorRejected()
    ensures ParseInt("\U{1C}5") == None
  {
    var t := "\U{1C}5";
    assert t[..0] == [];
    ParseIntNeedsDigit(t, 0);
  }

  lemma BlanksSkipped()
    ensures ParseInt(" 5\n") == Some(5)
  {
    assert " " + "5" + "\n" == " 5\n";
    assert AllOf(" ", IsIntSpace) && AllOf("\n", IsIntSpace) && AllDigits("5");
    assert DigitsValue("5") == 5 by {
      assert "5"[..0] == "";
    }
    DigitsSurrounded(" ", "5", "\n");
  }

  /** `int()` refuses an unsigned text without blanks around it that is not
      digit groups. */
  lemma UnsignedRefused(t: string)
    requires |t| > 0 && !IsIntSpace(t[0]) && !IsIntSpace(t[|t| - 1])
    requires t[0] != '-' && t[0] != '+' && !DigitGroups(t)
    ensures ParseInt(t) == None
  {
    assert Trim(t, IsIntSpace) == t by {
      assert "" + t + "" == t;
      TrimSurrounded("", t, "", IsIntSpace);
    }
  }

  /** `int("1.5")` raises: a float's text is not an integer. */
  lemma FloatNotInt()
    ensures ParseInt("1.5") == None
  {
    var t := "1.5";
    assert t[1] == '.' && !IsIntSpace(t[0]) && !IsIntSpace(t[2]);
    UnsignedRefused(t);
  }

  /** `int()` reads plain digits between blanks it skips. */
  lemma DigitsSurrounded(pre: string, d: string, post: string)
    requires AllOf(pre, IsIntSpace) && AllOf(post, IsIntSpace)
    requires |d| > 0 && AllDigits(d)
    ensures ParseInt(pre + d + post) == Some(DigitsValue(d))
  {
    TrimDigits(pre, d, post);
    SignedDigits(d);
  }

  /** The value of digit groups under an optional sign. */
  function GroupsValue(sign: string, d: string): int
    requires DigitGroups(d)
  {
    var v: int := DigitsValue(DropUnderscores(d));
    if sign == "-" then -v else v
  }

  predicate IsSign(sign: string) {
    sign == "" || sign == "+" || sign == "-"
  }

  /** `text` is what `int()` reads as `n`: blanks it skips, an optional
      sign, digit groups, then blanks. */
  ghost predicate IntText(text: string, pre: string, sign: string, d: string, post: string, n: int) {
    && text == pre + sign + d + post
    && AllOf(pre, IsIntSpace) && AllOf(post, IsIntSpace)
    && IsSign(sign) && DigitGroups(d) && n == GroupsValue(sign, d)
  }

  /** `int(text)` is `n` exactly when the text has that shape: the sign
      applied to the value of the digits with the underscores dropped. */
  lemma ParseIntMeaning(text: string, n: int)
    ensures ParseInt(text) == Some(n) <==> exists pre, sign, d, post :: IntText(text, pre, sign, d, post, n)
  {
    if ParseInt(text) == Some(n) {
      ParseIntShape(text, n);
    }
    if exists pre, sign, d, post :: IntText(text, pre, sign, d, post, n) {
      var pre, sign, d, post :| IntText(text, pre, sign, d, post, n);
      ParseIntOfText(pre, sign, d, post, n);
    }
  }

  /** Reading a text of that shape gives its value. */
  lemma ParseIntOfText(pre: string, sign: string, d: string, post: string, n: int)
    requires IntText(pre + sign + d + post, pre, sign, d, post, n)
    ensures ParseInt(pre + sign + d + post) == Some(n)
  {
    var m := sign + d;
    assert pre + sign + d + post == pre + m + post;
    assert Trim(pre + m + post, IsIntSpace) == m by {
      SignedEnds(sign, d);
      TrimSurrounded(pre, m, post, IsIntSpace);
    }
    SignedGroups(sign, d);
  }

  lemma SignedEnds(sign: string, d: string)
    requires IsSign(sign) && DigitGroups(d)
    ensures var m := sign + d;
      |m| > 0 && !IsIntSpace(m[0]) && !IsIntSpace(m[|m| - 1])
  {
    var m := sign + d;
    assert m[|m| - 1] == d[|d| - 1];
    assert m[0] == (if sign == "" then d[0] else sign[0]);
  }

  /** `int()` after the blanks: the sign, then the digit groups. */
  lemma SignedGroups(sign: string, d: string)
    requires IsSign(sign) && DigitGroups(d)
    ensures ParseSigned(sign + d) == Some(GroupsValue(sign, d))
  {
    var m := sign + d;
    assert m[(if sign == "" then 0 else 1)..] == d;
    assert |m| > 0 && (m[0] == '-' <==> sign == "-");
  }

  /** A text `int()` reads as `n` has that shape. */
  lemma ParseIntShape(text: string, n: int)
    requires ParseInt(text) == Some(n)
    ensures exists pre, sign, d, post :: IntText(text, pre, sign, d, post, n)
  {
    var t := Trim(text, IsIntSpace);
    var pre, post := TrimParts(text, IsIntSpace);
    var sign, d := SignedShape(t, n);
    Regroup(pre, t, post, sign, d);
    assert IntText(text, pre, sign, d, post, n);
  }

  /** What `Trim` removed: blanks before and after the result. */
  lemma TrimParts(text: string, blank: char -> bool) returns (pre: string, post: string)
    ensures text == pre + Trim(text, blank) + post && AllOf(pre, blank) && AllOf(post, blank)
  {
    var a := LeadingRun(text, blank);
    var t := Trim(text, blank);
    pre, post := text[..a], text[a + |t|..];
    SplitThree(text, a, a + |t|);
  }

  lemma SplitThree<T>(s: seq<T>, a: nat, b: nat)
    requires a <= b <= |s|
    ensures s == s[..a] + s[a..b] + s[b..]
  {
  }

  lemma Regroup(pre: string, t: string, post: string, sign: string, d: string)
    requires t == sign + d
    ensures pre + t + post == pre + sign + d + post
  {
  }

  /** What `int()` accepts once the blanks are gone: a sign and digit groups. */
  lemma SignedShape(t: string, n: int) returns (sign: string, d: string)
    requires ParseSigned(t) == Some(n)
    ensures t == sign + d && IsSign(sign) && DigitGroups(d) && n == GroupsValue(sign, d)
  {
    if |t| > 0 && (t[0] == '-' || t[0] == '+') {
      sign, d := [t[0]], t[1..];
      assert t == sign + d;
    } else {
      sign, d := "", t;
      assert t == sign + d;
    }
  }

  /** `int()` takes a plus sign, underscores between digits, and leading
      zeros after a minus sign. */
  lemma PlusSign()
    ensures ParseInt("+5") == Some(5)
  {
    assert "" + "+" + "5" + "" == "+5";
    assert DigitsValue("5") == 5 by {
      assert "5"[..0] == "";
    }
    PlainDigits("5");
    ParseIntOfText("", "+", "5", "", 5);
  }

  lemma Underscores()
    ensures ParseInt("1_000") == Some(1000)
  {
    var d := "1_000";
    assert "" + "" + d + "" == d;
    UnderscoreGroups();
    assert GroupsValue("", d) == 1000 by {
      UnderscoreDropped();
      ThousandValue();
    }
    ParseIntOfText("", "", d, "", 1000);
  }

  lemma UnderscoreGroups()
    ensures DigitGroups("1_000")
  {
    var d := "1_000";
    assert forall i :: 0 <= i < |d| ==> IsDigit(d[i]) || d[i] == '_';
  }

  lemma UnderscoreDropped()
    ensures DropUnderscores("1_000") == "1000"
  {
    var d := "1_000";
    assert d[1..] == "_000" && d[1..][1..] == "000";
    PlainDigits("000");
  }

  lemma ThousandValue()
    ensures DigitsValue("1000") == 1000
  {
    assert "1000"[..3] == "100" && "100"[..2] == "10" && "10"[..1] == "1" && "1"[..0] == "";
  }

  lemma LeadingZeros()
    ensures ParseInt("-007") == Some(-7)
  {
    var d := "007";
    assert "" + "-" + d + "" == "-007";
    PlainDigits(d);
    assert DigitsValue(d) == 7 by {
      assert d[..2] == "00" && "00"[..1] == "0" && "0"[..0] == "";
    }
    ParseIntOfText("", "-", d, "", -7);
  }

  lemma TrimDigits(pre: string, d: string, post: string)
    requires AllOf(pre, IsIntSpace) && AllOf(post, IsIntSpace)
    requires |d| > 0 && AllDigits(d)
    ensures Trim(pre + d + post, IsIntSpace) == d
  {
    assert IsDigit(d[0]) && IsDigit(d[|d| - 1]);
    TrimSurrounded(pre, d, post, IsIntSpace);
  }

  lemma SignedDigits(d: string)
    requires |d| > 0 && AllDigits(d)
    ensures ParseSigned(d) == Some(DigitsValue(d))
  {
    assert IsDigit(d[0]);
    PlainDigits(d);
  }

  /** `int(str(i)) == i`. */
  lemma ParseIntToString(i: int)
    ensures ParseInt(IntToString(i)) == Some(i)
  {
    StripIntToString(i);
    SignedIntToString(i);
  }

  lemma SignedIntToString(i: int)
    ensures ParseSigned(IntToString(i)) == Some(i)
  {
    if i < 0 {
      assert IntToString(i) == "-" + NatToString(-i);
      ParseNegative(-i);
    } else {
      assert IntToString(i) == NatToString(i);
      ParseNatural(i);
    }
  }

  /** `str(i)` has no blanks around it for `int()` to skip. */
  lemma StripIntToString(i: int)
    ensures ParseInt(IntToString(i)) == ParseSigned(IntToString(i))
  {
    var s := IntToString(i);
    assert !IsIntSpace(s[|s| - 1]);
    TrimSurrounded("", s, "", IsIntSpace);
    assert "" + s + "" == s;
  }

  lemma ParseNatural(n: nat)
    ensures ParseSigned(NatToString(n)) == Some(n)
  {
    var d := NatToString(n);
    PlainDigits(d);
    NatToStringValue(n);
  }

  lemma ParseNegative(n: nat)
    requires n > 0
    ensures ParseSigned("-" + NatToString(n)) == Some(-(n as int))
  {
    var d := NatToString(n);
    var s := "-" + d;
    assert s[1..] == d;
    PlainDigits(d);
    NatToStringValue(n);
  }

  lemma PlainDigits(d: string)
    requires |d| > 0 && AllDigits(d)
    ensures DigitGroups(d) && DropUnderscores(d) == d
  {
  }

  // ------------------------------------------------------------------
  // Reading lines from a text file

  /** The characters text-mode reading treats as line ends (universal newlines). */
  predicate IsLineBreak(c: char) {
    c == '\n' || c == '\r'
  }

  predicate NoLineBreak(s: string) {
    forall i :: 0 <= i < |s| ==> !IsLineBreak(s[i])
  }

  /** Index of the first line break in `s`, or `|s|`. */
  function LineEnd(s: string): (i: nat)
    ensures i <= |s|
    ensures NoLineBreak(s[..i])
    ensures i < |s| ==> IsLineBreak(s[i])
  {
    if |s| == 0 || IsLineBreak(s[0]) then 0
    else
      var i := 1 + LineEnd(s[1..]);
      assert s[..i] == [s[0]] + s[1..][..i - 1];
      i
  }

  /** The text as text-mode reading delivers it: "\r\n" and a lone "\r"
      both become "\n"; every other character is kept. */
  function Universal(text: string): (u: string)
    ensures forall i :: 0 <= i < |u| ==> u[i] != '\r'
    ensures NoLineBreak(text) ==> u == text
    decreases |text|
  {
    if |text| == 0 then ""
    else if text[0] == '\r' then
      "\n" + Universal(if |text| > 1 && text[1] == '\n' then text[2..] else text[1..])
    else
      var u := [text[0]] + Universal(text[1..]);
      assert NoLineBreak(text) ==> NoLineBreak(text[1..]) && text == [text[0]] + text[1..];
      u
  }

  /** The lines read, joined back into one text. */
  function Concat(lines: seq<string>): string {
    if |lines| == 0 then "" else lines[0] + Concat(lines[1..])
  }

  lemma ConcatCons(line: string, rest: seq<string>)
    ensures Concat([line] + rest) == line + Concat(rest)
  {
    assert ([line] + rest)[1..] == rest;
  }

  /** Where the next line starts after the line break at `i`: a "\r\n" pair
      is one break. */
  function AfterBreak(text: string, i: nat): (next: nat)
    requires i < |text|
    ensures i < next <= |text|
  {
    if text[i] == '\r' && i + 1 < |text| && text[i + 1] == '\n' then i + 2 else i + 1
  }

  /** Lines as a file yields them: none is empty, none holds a line break
      before its last character, and all but the last end in "\n". */
  predicate LinesShape(lines: seq<string>) {
    && (forall i :: 0 <= i < |lines| ==> |lines[i]| > 0)
    && (forall i :: 0 <= i < |lines| ==> NoLineBreak(lines[i][..|lines[i]| - 1]))
    && (forall i :: 0 <= i < |lines| - 1 ==> lines[i][|lines[i]| - 1] == '\n')
  }

  /** `for line in open(path)`: the lines of a file read in text mode, each
      with its end ("\r\n", "\r" or "\n") turned into "\n"; the last line has
      no end if the file does not finish with one. Joined together they are
      the text with its line ends translated. */
  function ReadLines(text: string): (lines: seq<string>)
    ensures LinesShape(lines)
    ensures Concat(lines) == Universal(text)
    decreases |text|
  {
    if |text| == 0 then []
    else
      var i := LineEnd(text);
      if i == |text| then
        assert text[..i] == text;
        assert text[..|text| - 1] == text[..i][..|text| - 1];
        assert Concat([text]) == text + Concat([]);
        [text]
      else
        var rest := ReadLines(text[AfterBreak(text, i)..]);
        NextLines(text, i, rest);
        [text[..i] + "\n"] + rest
  }

  /** The first line, ended at its first line break, ahead of the lines
      read after that break. */
  lemma NextLines(text: string, i: nat, rest: seq<string>)
    requires i < |text| && NoLineBreak(text[..i]) && IsLineBreak(text[i])
    requires forall j :: 0 <= j < |rest| ==> |rest[j]| > 0
    requires forall j :: 0 <= j < |rest| ==> NoLineBreak(rest[j][..|rest[j]| - 1])
    requires forall j :: 0 <= j < |rest| - 1 ==> rest[j][|rest[j]| - 1] == '\n'
    requires Concat(rest) == Universal(text[AfterBreak(text, i)..])
    ensures var lines := [text[..i] + "\n"] + rest;
      && (forall j :: 0 <= j < |lines| ==> |lines[j]| > 0)
      && (forall j :: 0 <= j < |lines| ==> NoLineBreak(lines[j][..|lines[j]| - 1]))
      && (forall j :: 0 <= j < |lines| - 1 ==> lines[j][|lines[j]| - 1] == '\n')
      && Concat(lines) == Universal(text)
  {
    var line := text[..i] + "\n";
    assert line[..|line| - 1] == text[..i];
    UniversalAt(text, i);
    ConcatCons(line, rest);
    LinesCons(line, rest);
  }

  /** A line ending in its only line break, ahead of lines read. */
  lemma LinesCons(line: string, rest: seq<string>)
    requires |line| > 0 && NoLineBreak(line[..|line| - 1]) && line[|line| - 1] == '\n'
    requires LinesShape(rest)
    ensures LinesShape([line] + rest)
  {
  }

  /** The translated text is the first line, "\n", then the translation of
      what follows the first line break. */
  lemma UniversalAt(text: string, i: nat)
    requires i < |text| && NoLineBreak(text[..i]) && IsLineBreak(text[i])
    ensures Universal(text) == text[..i] + "\n" + Universal(text[AfterBreak(text, i)..])
  {
    var pre, rest, next := text[..i], text[i..], text[AfterBreak(text, i)..];
    assert Universal(rest) == "\n" + Universal(next) by {
      UniversalBreak(rest);
      assert rest[AfterBreak(rest, 0)..] == next;
    }
    assert Universal(text) == pre + Universal(rest) by {
      assert text == pre + rest;
      UniversalPrefix(pre, rest);
    }
    AppendLine(pre, Universal(next));
  }

  lemma AppendLine(pre: string, x: string)
    ensures pre + ("\n" + x) == pre + "\n" + x
  {
  }

  /** Text without line breaks is kept as it is, ahead of whatever follows. */
  lemma {:induction false} UniversalPrefix(pre: string, rest: string)
    requires NoLineBreak(pre)
    ensures Universal(pre + rest) == pre + Universal(rest)
    decreases |pre|
  {
    if |pre| == 0 {
      assert pre + rest == rest;
    } else {
      var t := pre + rest;
      assert t[1..] == pre[1..] + rest;
      UniversalPlain(t);
      UniversalPrefix(pre[1..], rest);
      PrependLine(pre[0], pre[1..], pre, Universal(rest));
    }
  }

  /** A text starting with any other character keeps it, then the rest. */
  lemma UniversalPlain(text: string)
    requires 0 < |text| && !IsLineBreak(text[0])
    ensures Universal(text) == [text[0]] + Universal(text[1..])
  {
  }

  /** Putting a character ahead of a line, then the rest. */
  lemma PrependLine(c: char, line: string, longer: string, x: string)
    requires longer == [c] + line
    ensures [c] + (line + x) == longer + x
  {
  }

  /** A text starting with a line break reads as "\n", then the rest. */
  lemma UniversalBreak(text: string)
    requires 0 < |text| && IsLineBreak(text[0])
    ensures Universal(text) == text[..0] + "\n" + Universal(text[AfterBreak(text, 0)..])
  {
    assert text[..0] == "";
    if text[0] == '\n' {
      assert AfterBreak(text, 0) == 1;
    }
  }

  /** The file produced by writing each line followed by "\n". */
  function Terminated(lines: seq<string>): string {
    if |lines| == 0 then "" else lines[0] + "\n" + Terminated(lines[1..])
  }

  /** Writing one more line extends the text at its end. */
  lemma {:induction false} TerminatedSnoc(lines: seq<string>, l: string)
    ensures Terminated(lines + [l]) == Terminated(lines) + l + "\n"
    decreases |lines|
  {
    if |lines| == 0 {
      assert lines + [l] == [l];
      assert Terminated([l]) == l + "\n" + Terminated([]);
    } else {
      assert (lines + [l])[1..] == lines[1..] + [l];
      TerminatedSnoc(lines[1..], l);
      var h := lines[0] + "\n";
      var t := Terminated(lines[1..]);
      assert h + (t + l + "\n") == h + t + l + "\n";
    }
  }

  /** Lines written without line breaks in them are read back one for one,
      each with its "\n". */
  lemma {:induction false} ReadTerminated(lines: seq<string>)
    requires forall i :: 0 <= i < |lines| ==> NoLineBreak(lines[i])
    ensures ReadLines(Terminated(lines)) == WithNewlines(lines)
    decreases |lines|
  {
    if |lines| > 0 {
      ReadFirstLine(lines[0], Terminated(lines[1..]));
      ReadTerminated(lines[1..]);
    }
  }

  /** Each line with its "\n". */
  function WithNewlines(lines: seq<string>): (r: seq<string>)
    ensures |r| == |lines| && forall i :: 0 <= i < |lines| ==> r[i] == lines[i] + "\n"
  {
    if |lines| == 0 then [] else [lines[0] + "\n"] + WithNewlines(lines[1..])
  }

  /** A line without line breaks, then "\n", is read as the first line. */
  lemma ReadFirstLine(l: string, rest: string)
    requires NoLineBreak(l)
    ensures ReadLines(l + "\n" + rest) == [l + "\n"] + ReadLines(rest)
  {
    var text := l + "\n" + rest;
    LineEndAt(text, |l|);
    assert text[..|l|] == l;
    assert text[|l| + 1..] == rest;
  }

  /** A text of one line and its "\n" is read as that line. */
  lemma OnlyLine(l: string)
    requires NoLineBreak(l)
    ensures ReadLines(l + "\n") == [l + "\n"]
  {
    ReadFirstLine(l, "");
    assert l + "\n" + "" == l + "\n";
  }

  lemma LineEndAt(s: string, k: nat)
    requires k < |s| && IsLineBreak(s[k]) && NoLineBreak(s[..k])
    ensures LineEnd(s) == k
  {
    if k > 0 {
      assert !IsLineBreak(s[..k][0]);
      assert s[1..][..k - 1] == s[..k][1..];
      LineEndAt(s[1..], k - 1);
    }
  }
}
