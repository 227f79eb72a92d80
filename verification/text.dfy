/** The few Python string operations the scripts rely on: `in` between two
    strings, `str.strip()`, `str.lower()` compared with a word,
    `str.split(",")`, `str.isdigit()` and `int()`. */
module Text {

  /** `pre` is a prefix of `s`. */
  predicate IsPrefix(pre: string, s: string)
  {
    |pre| <= |s| && s[..|pre|] == pre
  }

  /** Python's `sub in s`: some position of `s` starts a copy of `sub`.
      The empty string occurs in every string. */
  predicate Contains(s: string, sub: string): (b: bool)
    ensures IsPrefix(sub, s) ==> b
    ensures b ==> |sub| <= |s|
    decreases |s|
  {
    IsPrefix(sub, s) || (|s| > 0 && Contains(s[1..], sub))
  }

  /** `sub` occurs in `s` starting at index `k`. */
  ghost predicate OccursAt(s: string, sub: string, k: int)
  {
    0 <= k && k + |sub| <= |s| && s[k..k + |sub|] == sub
  }

  /** `Contains` is literal substring search: it holds exactly when some
      index of `s` starts an occurrence of `sub`. */
  lemma {:induction false} ContainsIffOccurs(s: string, sub: string)
    ensures Contains(s, sub) <==> exists k :: OccursAt(s, sub, k)
    decreases |s|
  {
    if Contains(s, sub) {
      if IsPrefix(sub, s) {
        assert OccursAt(s, sub, 0);
      } else {
        ContainsIffOccurs(s[1..], sub);
        var k :| OccursAt(s[1..], sub, k);
        assert s[1..][k..k + |sub|] == s[k + 1..k + 1 + |sub|];
        assert OccursAt(s, sub, k + 1);
      }
    }
    if exists k :: OccursAt(s, sub, k) {
      var k :| OccursAt(s, sub, k);
      if k > 0 {
        assert s[1..][k - 1..k - 1 + |sub|] == s[k..k + |sub|];
        assert OccursAt(s[1..], sub, k - 1);
        ContainsIffOccurs(s[1..], sub);
      }
    }
  }

  /** Appending text after a string keeps every occurrence inside it. */
  lemma ContainsExtend(s: string, tail: string, sub: string)
    requires Contains(s, sub)
    ensures Contains(s + tail, sub)
  {
    ContainsIffOccurs(s, sub);
    var k :| OccursAt(s, sub, k);
    assert (s + tail)[k..k + |sub|] == s[k..k + |sub|];
    assert OccursAt(s + tail, sub, k);
    ContainsIffOccurs(s + tail, sub);
  }

  /** Python's `str.isspace()` for one character: the ASCII and Unicode
      white-space characters that `str.strip()` removes. */
  predicate IsSpace(c: char)
  {
    || c == ' ' || c == '\t' || c == '\n' || c == '\r'
    || c == '\U{000B}' || c == '\U{000C}'
    || ('\U{001C}' <= c <= '\U{001F}')
    || c == '\U{0085}' || c == '\U{00A0}' || c == '\U{1680}'
    || ('\U{2000}' <= c <= '\U{200A}')
    || c == '\U{2028}' || c == '\U{2029}' || c == '\U{202F}'
    || c == '\U{205F}' || c == '\U{3000}'
  }

  /** Every character of `s` is white space. */
  predicate AllSpace(s: string)
  {
    forall k :: 0 <= k < |s| ==> IsSpace(s[k])
  }

  /** The index of the first character at or after `i` that is not white
      space, or `|s|`. */
  function SpanStart(s: string, i: nat): (a: nat)
    requires i <= |s|
    ensures i <= a <= |s|
    ensures forall k :: i <= k < a ==> IsSpace(s[k])
    ensures a < |s| ==> !IsSpace(s[a])
    decreases |s| - i
  {
    if i < |s| && IsSpace(s[i]) then SpanStart(s, i + 1) else i
  }

  /** The end of `s[a..j]` once its trailing white space is cut off. */
  function SpanEnd(s: string, a: nat, j: nat): (b: nat)
    requires a <= j <= |s|
    ensures a <= b <= j
    ensures forall k :: b <= k < j ==> IsSpace(s[k])
    ensures b > a ==> !IsSpace(s[b - 1])
    decreases j
  {
    if j > a && IsSpace(s[j - 1]) then SpanEnd(s, a, j - 1) else j
  }

  /** Python's `s.strip()`: `s` without its leading and trailing white
      space. */
  function Strip(s: string): (r: string)
    ensures |r| <= |s|
    ensures |r| > 0 ==> !IsSpace(r[0]) && !IsSpace(r[|r| - 1])
  {
    var a := SpanStart(s, 0);
    s[a..SpanEnd(s, a, |s|)]
  }

  /** What `Strip` cuts off is white space, and what it keeps is one slice
      of `s`. */
  lemma StripCutsOnlySpace(s: string)
    ensures var r := Strip(s);
            exists i :: 0 <= i <= |s| - |r| && r == s[i..i + |r|]
                        && AllSpace(s[..i]) && AllSpace(s[i + |r|..])
  {
    var a := SpanStart(s, 0);
    var b := SpanEnd(s, a, |s|);
    assert Strip(s) == s[a..a + (b - a)];
    assert forall k :: 0 <= k < a ==> s[..a][k] == s[k];
    assert AllSpace(s[..a]);
    assert forall k :: 0 <= k < |s| - b ==> s[b..][k] == s[b + k];
    assert AllSpace(s[b..]);
  }

  /** The white space `Strip` cuts off before and after what it keeps. */
  lemma StripParts(s: string) returns (a: string, b: string)
    ensures s == a + Strip(s) + b && AllSpace(a) && AllSpace(b)
  {
    var i := SpanStart(s, 0);
    var j := SpanEnd(s, i, |s|);
    a, b := s[..i], s[j..];
    SpaceBeforeSpan(s, i);
    SpaceAfterSpan(s, i, j);
    assert Strip(s) == s[i..j];
    assert s[..i] + s[i..j] == s[..j];
    assert s[..j] + s[j..] == s;
  }

  /** The text before `SpanStart` is white space. */
  lemma SpaceBeforeSpan(s: string, i: nat)
    requires i == SpanStart(s, 0)
    ensures AllSpace(s[..i])
  {
    forall k | 0 <= k < i
      ensures IsSpace(s[..i][k])
    {
      assert s[..i][k] == s[k];
    }
  }

  /** The text after `SpanEnd` is white space. */
  lemma SpaceAfterSpan(s: string, i: nat, j: nat)
    requires i <= |s| && j == SpanEnd(s, i, |s|)
    ensures AllSpace(s[j..])
  {
    forall k | 0 <= k < |s| - j
      ensures IsSpace(s[j..][k])
    {
      assert s[j..][k] == s[j + k];
    }
  }

  /** White space around a string that neither starts nor ends with white
      space is exactly what `Strip` cuts off. */
  lemma StripPadded(a: string, d: string, b: string)
    requires AllSpace(a) && AllSpace(b)
    requires |d| > 0 && !IsSpace(d[0]) && !IsSpace(d[|d| - 1])
    ensures Strip(a + d + b) == d
  {
    var s := a + d + b;
    var i := SpanStart(s, 0);
    assert s[|a|] == d[0];
    assert forall k :: 0 <= k < |a| ==> s[k] == a[k];
    assert i == |a|;
    var j := SpanEnd(s, i, |s|);
    assert s[|a| + |d| - 1] == d[|d| - 1];
    assert forall k :: |a| + |d| <= k < |s| ==> s[k] == b[k - |a| - |d|];
    assert j == |a| + |d|;
    assert s[i..j] == d;
  }

  /** A string that neither starts nor ends with white space is its own
      strip. */
  lemma StripNoEdgeSpace(s: string)
    requires |s| > 0 ==> !IsSpace(s[0]) && !IsSpace(s[|s| - 1])
    ensures Strip(s) == s
  {
  }

  /** Python's `str.lower()` restricted to one character: ASCII upper-case
      letters become lower-case, everything else is kept. */
  function Lower(c: char): (r: char)
  {
    if 'A' <= c <= 'Z' then (c as int - 'A' as int + 'a' as int) as char else c
  }

  /** `word` is made of lower-case ASCII letters, as `all` and `none` are. */
  predicate IsLowerWord(word: string)
  {
    forall k :: 0 <= k < |word| ==> 'a' <= word[k] <= 'z'
  }

  /** The upper-case ASCII letter of a lower-case one. */
  function Upper(c: char): (u: char)
    requires 'a' <= c <= 'z'
    ensures 'A' <= u <= 'Z'
  {
    (c as int - 'a' as int + 'A' as int) as char
  }

  /** `s.lower() == word` for a lower-case ASCII `word`: `s` spells `word`
      with each letter in either case. */
  predicate LowerEquals(s: string, word: string): (b: bool)
    ensures IsLowerWord(word) ==>
              (b <==> |s| == |word|
                      && forall k :: 0 <= k < |s| ==> s[k] == word[k] || s[k] == Upper(word[k]))
  {
    |s| == |word| && forall k :: 0 <= k < |s| ==> Lower(s[k]) == word[k]
  }

  /** Python's `s.split(sep)` with a one-character separator: the pieces
      between separators, always at least one, possibly empty. */
  function Split(s: string, sep: char): (r: seq<string>)
    ensures |r| >= 1
    ensures forall k :: 0 <= k < |r| ==> sep !in r[k]
    decreases |s|
  {
    if |s| == 0 then [""]
    else
      var rest := Split(s[1..], sep);
      if s[0] == sep then [""] + rest
      else [[s[0]] + rest[0]] + rest[1..]
  }

  /** Python's `sep.join(parts)`. */
  function Join(parts: seq<string>, sep: char): string
    decreases |parts|
  {
    if |parts| == 0 then ""
    else if |parts| == 1 then parts[0]
    else parts[0] + [sep] + Join(parts[1..], sep)
  }

  /** A join starts with the first piece when that piece is not empty. */
  lemma JoinStarts(parts: seq<string>, sep: char)
    requires |parts| >= 1 && |parts[0]| > 0
    ensures |Join(parts, sep)| > 0 && Join(parts, sep)[0] == parts[0][0]
  {
  }

  /** A join ends with the last piece when that piece is not empty. */
  lemma {:induction false} JoinEnds(parts: seq<string>, sep: char)
    requires |parts| >= 1 && |parts[|parts| - 1]| > 0
    ensures var text, last := Join(parts, sep), parts[|parts| - 1];
            |text| >= |last| && text[|text| - 1] == last[|last| - 1]
    decreases |parts|
  {
    if |parts| > 1 {
      JoinEnds(parts[1..], sep);
      assert parts[1..][|parts| - 2] == parts[|parts| - 1];
    }
  }

  /** A piece without separators followed by the rest splits off as one. */
  lemma {:induction false} SplitPiece(a: string, sep: char, b: string)
    requires sep !in a
    ensures Split(a + [sep] + b, sep) == [a] + Split(b, sep)
    ensures Split(a, sep) == [a]
    decreases |a|
  {
    if |a| > 0 {
      assert (a + [sep] + b)[1..] == a[1..] + [sep] + b;
      SplitPiece(a[1..], sep, b);
      assert [a[0]] + a[1..] == a;
    }
  }

  /** Splitting a join gives back the pieces, when no piece holds the
      separator. */
  lemma {:induction false} SplitJoin(parts: seq<string>, sep: char)
    requires |parts| >= 1
    requires forall k :: 0 <= k < |parts| ==> sep !in parts[k]
    ensures Split(Join(parts, sep), sep) == parts
    decreases |parts|
  {
    if |parts| == 1 {
      SplitPiece(parts[0], sep, "");
    } else {
      SplitJoin(parts[1..], sep);
      SplitPiece(parts[0], sep, Join(parts[1..], sep));
      assert [parts[0]] + parts[1..] == parts;
    }
  }

  /** Joining the pieces of a split gives back the string. */
  lemma {:induction false} JoinSplit(s: string, sep: char)
    ensures Join(Split(s, sep), sep) == s
    decreases |s|
  {
    if |s| > 0 {
      JoinSplit(s[1..], sep);
      var rest := Split(s[1..], sep);
      if s[0] != sep {
        var parts := [[s[0]] + rest[0]] + rest[1..];
        if |rest| > 1 {
          assert parts[1..] == rest[1..];
          assert Join(rest, sep) == rest[0] + [sep] + Join(rest[1..], sep);
        }
        assert Join(parts, sep) == [s[0]] + Join(rest, sep);
      } else {
        assert ([""] + rest)[1..] == rest;
      }
      assert [s[0]] + s[1..] == s;
    }
  }

  /** An ASCII decimal digit. */
  predicate IsDigit(c: char)
  {
    '0' <= c <= '9'
  }

  /** Digits are not white space. */
  lemma DigitIsNotSpace(c: char)
    requires IsDigit(c)
    ensures !IsSpace(c)
  {
  }

  /** The value of one ASCII digit. */
  function DigitValue(c: char): (d: nat)
    requires IsDigit(c)
  {
    c as int - '0' as int
  }

  /** Python's `s.isdigit()` on ASCII text: non-empty and all digits. A
      digit string has no white space to strip. */
  predicate IsDigits(s: string): (b: bool)
    ensures b ==> |s| > 0 && !IsSpace(s[0]) && !IsSpace(s[|s| - 1])
  {
    |s| > 0 && forall k :: 0 <= k < |s| ==> IsDigit(s[k])
  }

  /** Python's `int(s)` on a string of ASCII digits. Leading zeros are
      allowed and do not change the value. */
  function DecimalValue(s: string): (n: nat)
    requires forall k :: 0 <= k < |s| ==> IsDigit(s[k])
    ensures |s| > 0 && s[0] != '0' ==> n > 0
    decreases |s|
  {
    if |s| == 0 then 0
    else DecimalValue(s[..|s| - 1]) * 10 + DigitValue(s[|s| - 1])
  }

  /** A leading zero does not change the value: `int("07") == int("7")`. */
  lemma {:induction false} LeadingZeroKeepsValue(s: string)
    requires |s| > 0 && s[0] == '0'
    requires forall k :: 0 <= k < |s| ==> IsDigit(s[k])
    ensures DecimalValue(s) == DecimalValue(s[1..])
    decreases |s|
  {
    if |s| > 1 {
      var init := s[..|s| - 1];
      LeadingZeroKeepsValue(init);
      assert init[1..] == s[1..][..|s| - 2];
    }
  }

  /** The digit character of `d`. */
  function DigitChar(d: nat): (c: char)
    requires d < 10
    ensures IsDigit(c) && DigitValue(c) == d
  {
    ('0' as int + d) as char
  }

  /** The decimal numeral of `n` without leading zeros, as `str(n)`. */
  function NatToString(n: nat): (s: string)
    ensures IsDigits(s)
    ensures |s| > 1 ==> s[0] != '0'
    decreases n
  {
    if n < 10 then [DigitChar(n)] else NatToString(n / 10) + [DigitChar(n % 10)]
  }

  /** Reading back a printed number gives the number. */
  lemma {:induction false} DecimalValueOfNatToString(n: nat)
    ensures DecimalValue(NatToString(n)) == n
    decreases n
  {
    if n >= 10 {
      DecimalValueOfNatToString(n / 10);
      var s := NatToString(n);
      assert s[..|s| - 1] == NatToString(n / 10);
    }
  }

  /** Printing the value of a numeral without leading zeros gives back the
      numeral. */
  lemma {:induction false} NatToStringOfDecimalValue(s: string)
    requires IsDigits(s) && (|s| > 1 ==> s[0] != '0')
    ensures NatToString(DecimalValue(s)) == s
    decreases |s|
  {
    var last := s[|s| - 1];
    assert DigitChar(DigitValue(last)) == last;
    if |s| > 1 {
      var init := s[..|s| - 1];
      assert init[0] == s[0];
      NatToStringOfDecimalValue(init);
      var v, d := DecimalValue(init), DigitValue(last);
      LastDigit(v, d);
      assert NatToString(v * 10 + d) == NatToString(v) + [DigitChar(d)];
      assert s == init + [last];
    }
  }

  /** Appending the digit `d` to the number `v` and taking it off again. */
  lemma LastDigit(v: nat, d: nat)
    requires d < 10
    ensures (v * 10 + d) / 10 == v && (v * 10 + d) % 10 == d
  {
  }
}
