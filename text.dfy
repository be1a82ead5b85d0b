/** The JavaScript string operations the rendering rules are built from:
    `trim`, `split`, `join`, `startsWith`, `String(n)` for an integer, and
    markdown-it's `escapeHtml`. Strings are sequences of Unicode scalar
    values (`char`); no Unicode normalisation is involved. */
module Text {

  // ---------------------------------------------------------------------
  // Whitespace and trim

  /** The characters `String.prototype.trim` removes: ECMAScript WhiteSpace
      (tab, vertical tab, form feed, space, no-break space, the byte order
      mark and the Unicode space separators) and LineTerminator (line feed,
      carriage return, line and paragraph separator). */
  predicate IsJsSpace(c: char) {
    var n := c as int;
    (0x9 <= n <= 0xD) || n == 0x20 || n == 0xA0 || n == 0x1680 || (0x2000 <= n <= 0x200A) ||
    n == 0x2028 || n == 0x2029 || n == 0x202F || n == 0x205F || n == 0x3000 || n == 0xFEFF
  }

  predicate NoJsSpace(s: string) {
    forall i :: 0 <= i < |s| ==> !IsJsSpace(s[i])
  }

  /** The length of the leading whitespace: everything before it is
      whitespace and the character at it (if any) is not. */
  function LeadingSpaces(s: string): (n: nat)
    ensures n <= |s|
    ensures forall i :: 0 <= i < n ==> IsJsSpace(s[i])
    ensures n < |s| ==> !IsJsSpace(s[n])
  {
    if |s| > 0 && IsJsSpace(s[0]) then 1 + LeadingSpaces(s[1..]) else 0
  }

  /** The length of the trailing whitespace, read from the end. */
  function TrailingSpaces(s: string): (n: nat)
    ensures n <= |s|
    ensures forall i :: |s| - n <= i < |s| ==> IsJsSpace(s[i])
    ensures n < |s| ==> !IsJsSpace(s[|s| - 1 - n])
  {
    if |s| > 0 && IsJsSpace(s[|s| - 1]) then 1 + TrailingSpaces(s[..|s| - 1]) else 0
  }

  /** `s.trim()`: the leading whitespace is cut first, then the trailing
      whitespace of what is left (`TrimInfix`, `TrimTrailing` and `TrimEnds`
      characterise the result). */
  function Trim(s: string): (r: string)
    ensures |r| <= |s|
  {
    TrimEnd(s[LeadingSpaces(s)..])
  }

  /** `s.trimEnd()`: the trailing whitespace cut. */
  function TrimEnd(s: string): (r: string)
    ensures |r| <= |s|
  {
    s[..|s| - TrailingSpaces(s)]
  }

  /** The trim of `s` is the infix `s[lo..lo + |Trim(s)|]`, where `lo` is the
      length of the leading whitespace. */
  lemma TrimInfix(s: string)
    ensures LeadingSpaces(s) + |Trim(s)| <= |s|
    ensures Trim(s) == s[LeadingSpaces(s)..LeadingSpaces(s) + |Trim(s)|]
  {
  }

  /** After the trim only whitespace is left in `s`. */
  lemma TrimTrailing(s: string)
    ensures forall i :: LeadingSpaces(s) + |Trim(s)| <= i < |s| ==> IsJsSpace(s[i])
  {
    var lo := LeadingSpaces(s);
    var rest := s[lo..];
    var n := TrailingSpaces(rest);
    forall i | lo + |rest| - n <= i < |s|
      ensures IsJsSpace(s[i])
    {
      assert s[i] == rest[i - lo];
    }
  }

  /** The trim neither starts nor ends with whitespace. */
  lemma TrimEnds(s: string)
    ensures var r := Trim(s); |r| > 0 ==> !IsJsSpace(r[0]) && !IsJsSpace(r[|r| - 1])
  {
    var lo := LeadingSpaces(s);
    var rest := s[lo..];
    var n := TrailingSpaces(rest);
    if n < |rest| {
      assert s[lo + |rest| - 1 - n] == rest[|rest| - 1 - n];
    }
  }

  /** A string that neither starts nor ends with whitespace is its own trim. */
  lemma TrimBetween(s: string)
    requires |s| > 0 ==> !IsJsSpace(s[0]) && !IsJsSpace(s[|s| - 1])
    ensures Trim(s) == s
  {
    if |s| > 0 {
      assert s[0..] == s;
    }
  }

  /** A string without whitespace is its own trim. */
  lemma TrimNoSpace(s: string)
    requires NoJsSpace(s)
    ensures Trim(s) == s
  {
    if |s| > 0 {
      assert !IsJsSpace(s[0]) && !IsJsSpace(s[|s| - 1]);
    }
    TrimBetween(s);
  }

  /** Whitespace in front adds to the leading whitespace. */
  lemma {:induction false} LeadingSpacesConcat(ws: string, r: string)
    requires forall i :: 0 <= i < |ws| ==> IsJsSpace(ws[i])
    ensures LeadingSpaces(ws + r) == |ws| + LeadingSpaces(r)
  {
    if |ws| == 0 {
      assert ws + r == r;
    } else {
      ConcatHeadTail(ws, r);
      LeadingSpacesConcat(ws[1..], r);
    }
  }

  /** Leading whitespace makes no difference to the trim. */
  lemma TrimAfterSpaces(ws: string, r: string)
    requires forall i :: 0 <= i < |ws| ==> IsJsSpace(ws[i])
    ensures Trim(ws + r) == Trim(r)
  {
    LeadingSpacesConcat(ws, r);
    SuffixOfConcat(ws, r, LeadingSpaces(r));
  }

  /** A suffix of the right part of a concatenation. */
  lemma SuffixOfConcat<T>(a: seq<T>, b: seq<T>, i: nat)
    requires i <= |b|
    ensures (a + b)[|a| + i..] == b[i..]
  {
  }

  // ---------------------------------------------------------------------
  // split and join on a single character

  predicate Without(s: string, c: char) {
    forall i :: 0 <= i < |s| ==> s[i] != c
  }

  /** `s.split(sep)` for a one-character separator; never empty
      (`"".split(" ")` is `[""]`). `JoinSplit` shows nothing is lost,
      `SplitAt` and `SplitWithout` where the pieces come from. */
  function Split(s: string, sep: char): (parts: seq<string>)
    ensures |parts| >= 1
  {
    if |s| == 0 then [""]
    else if s[0] == sep then [""] + Split(s[1..], sep)
    else
      var rest := Split(s[1..], sep);
      [[s[0]] + rest[0]] + rest[1..]
  }

  /** `parts.join(sep)`: `[]` gives `""`, one piece gives itself. */
  function Join(parts: seq<string>, sep: string): (r: string)
    ensures |parts| > 0 ==> parts[0] <= r
  {
    if |parts| == 0 then ""
    else if |parts| == 1 then parts[0]
    else parts[0] + sep + Join(parts[1..], sep)
  }

  /** Joining the pieces of a split with the separator gives back the string. */
  lemma {:induction false} JoinSplit(s: string, sep: char)
    ensures Join(Split(s, sep), [sep]) == s
  {
    if |s| > 0 {
      JoinSplit(s[1..], sep);
      var rest := Split(s[1..], sep);
      if s[0] == sep {
        assert s == [sep] + s[1..];
      } else {
        var parts := [[s[0]] + rest[0]] + rest[1..];
        assert parts[1..] == rest[1..];
        assert Join(parts, [sep]) == [s[0]] + Join(rest, [sep]);
        assert s == [s[0]] + s[1..];
      }
    }
  }

  /** One step of `Split` on a string given as its first character and the rest. */
  lemma SplitCons(c: char, t: string, sep: char)
    ensures Split([c] + t, sep) ==
      if c == sep then [""] + Split(t, sep)
      else [[c] + Split(t, sep)[0]] + Split(t, sep)[1..]
  {
    assert ([c] + t)[0] == c && ([c] + t)[1..] == t;
  }

  /** Concatenation after a first element, regrouped. */
  lemma ConsAssoc<T>(x: T, l: seq<T>, r: seq<T>)
    ensures [x] + (l + r) == ([x] + l) + r
  {
  }

  /** The head and tail of a concatenation whose left part is not empty. */
  lemma ConcatHeadTail<T>(l: seq<T>, r: seq<T>)
    requires |l| > 0
    ensures (l + r)[0] == l[0] && (l + r)[1..] == l[1..] + r
  {
  }

  /** Splitting at a separator: the pieces of the left part, then those of
      the right part. */
  lemma {:induction false} SplitAt(a: string, b: string, sep: char)
    ensures Split(a + [sep] + b, sep) == Split(a, sep) + Split(b, sep)
  {
    if |a| == 0 {
      assert a + [sep] + b == [sep] + b;
      SplitCons(sep, b, sep);
    } else {
      var a', tail := a[1..], a[1..] + [sep] + b;
      assert a == [a[0]] + a';
      assert a + [sep] + b == [a[0]] + tail;
      SplitCons(a[0], tail, sep);
      SplitCons(a[0], a', sep);
      SplitAt(a', b, sep);
      var left, right := Split(a', sep), Split(b, sep);
      if a[0] == sep {
        ConsAssoc("", left, right);
      } else {
        ConcatHeadTail(left, right);
        ConsAssoc([a[0]] + left[0], left[1..], right);
      }
    }
  }

  /** A string without the separator splits into just itself. */
  lemma {:induction false} SplitWithout(s: string, sep: char)
    requires Without(s, sep)
    ensures Split(s, sep) == [s]
  {
    if |s| > 0 {
      SplitWithout(s[1..], sep);
      assert s[0] != sep;
      assert s == [s[0]] + s[1..];
    }
  }

  /** `.filter((a) => a)`: the pieces that are not the empty string, in order. */
  function NonEmpty(parts: seq<string>): (r: seq<string>)
    ensures |r| <= |parts|
    ensures forall k :: 0 <= k < |r| ==> r[k] != "" && r[k] in parts
    ensures (forall k :: 0 <= k < |parts| ==> parts[k] != "") ==> r == parts
  {
    if |parts| == 0 then []
    else if parts[0] == "" then NonEmpty(parts[1..])
    else [parts[0]] + NonEmpty(parts[1..])
  }

  /** The filter on a single piece: an empty piece goes, any other stays. */
  lemma NonEmptySingle(p: string)
    ensures NonEmpty([p]) == if p == "" then [] else [p]
  {
    assert [p][1..] == [];
  }

  /** The filter works piece by piece, so it keeps the order of what it keeps
      and distributes over concatenation. */
  lemma {:induction false} NonEmptyConcat(a: seq<string>, b: seq<string>)
    ensures NonEmpty(a + b) == NonEmpty(a) + NonEmpty(b)
  {
    if |a| == 0 {
      assert a + b == b;
    } else {
      ConcatHeadTail(a, b);
      NonEmptyConcat(a[1..], b);
      if a[0] != "" {
        ConsAssoc(a[0], NonEmpty(a[1..]), NonEmpty(b));
      }
    }
  }

  /** Dropping empties from a single piece and joining gives the piece. */
  lemma JoinNonEmptySingle(s: string)
    ensures Join(NonEmpty([s]), "-") == s
  {
    assert [s][1..] == [];
    if s != "" {
      assert NonEmpty([s]) == [s];
    }
  }

  function Count(s: string, c: char): nat {
    if |s| == 0 then 0 else (if s[0] == c then 1 else 0) + Count(s[1..], c)
  }

  lemma {:induction false} CountConcat(a: string, b: string, c: char)
    ensures Count(a + b, c) == Count(a, c) + Count(b, c)
  {
    if |a| == 0 {
      assert a + b == b;
    } else {
      assert (a + b)[0] == a[0];
      assert (a + b)[1..] == a[1..] + b;
      CountConcat(a[1..], b, c);
    }
  }

  predicate StartsWith(s: string, prefix: string) {
    |prefix| <= |s| && s[..|prefix|] == prefix
  }

  /** `sub` occurs somewhere in `s`: at its start, or somewhere in its tail. */
  predicate IsInfix(sub: string, s: string)
    decreases |s|
  {
    StartsWith(s, sub) || (|s| > 0 && IsInfix(sub, s[1..]))
  }

  /** `b` occurs in `a + b + c`, after `a`. */
  lemma {:induction false} InfixOfConcat(a: string, b: string, c: string)
    ensures IsInfix(b, a + b + c)
  {
    if |a| == 0 {
      assert a + b + c == b + c;
      assert (b + c)[..|b|] == b;
    } else {
      assert (a + b + c)[1..] == a[1..] + b + c;
      InfixOfConcat(a[1..], b, c);
    }
  }

  /** What occurs in `s` still occurs once more text follows. */
  lemma {:induction false} InfixExtend(sub: string, s: string, t: string)
    requires IsInfix(sub, s)
    ensures IsInfix(sub, s + t)
    decreases |s|
  {
    if StartsWith(s, sub) {
      assert (s + t)[..|sub|] == s[..|sub|];
    } else {
      assert (s + t)[1..] == s[1..] + t;
      InfixExtend(sub, s[1..], t);
    }
  }

  // ---------------------------------------------------------------------
  // String(n) for an integer

  predicate IsDigit(c: char) { '0' <= c <= '9' }

  function DigitChar(d: nat): (c: char)
    requires d < 10
    ensures IsDigit(c) && c as int - '0' as int == d
  {
    ['0', '1', '2', '3', '4', '5', '6', '7', '8', '9'][d]
  }

  /** Decimal digits, most significant first, no leading zero. */
  function NatToString(n: nat): (r: string)
    ensures |r| >= 1 && (forall i :: 0 <= i < |r| ==> IsDigit(r[i]))
    ensures |r| > 1 ==> r[0] != '0'
  {
    if n < 10 then [DigitChar(n)] else NatToString(n / 10) + [DigitChar(n % 10)]
  }

  /** The value a run of decimal digits denotes. */
  function DigitsValue(s: string): int
    requires forall i :: 0 <= i < |s| ==> IsDigit(s[i])
  {
    if |s| == 0 then 0 else DigitsValue(s[..|s| - 1]) * 10 + (s[|s| - 1] as int - '0' as int)
  }

  lemma {:induction false} NatToStringValue(n: nat)
    ensures DigitsValue(NatToString(n)) == n
  {
    if n >= 10 {
      NatToStringValue(n / 10);
      var r := NatToString(n);
      assert r[..|r| - 1] == NatToString(n / 10);
    }
  }

  /** `String(n)` for an integer `n`: a minus sign for negative numbers. */
  function IntToString(n: int): (r: string)
    ensures |r| >= 1
  {
    if n < 0 then "-" + NatToString(-n) else NatToString(n)
  }

  /** Reading an optionally signed run of decimal digits. */
  function ParseInt(s: string): int
  {
    if |s| > 0 && s[0] == '-' && (forall i :: 1 <= i < |s| ==> IsDigit(s[i])) then -DigitsValue(s[1..])
    else if forall i :: 0 <= i < |s| ==> IsDigit(s[i]) then DigitsValue(s)
    else 0
  }

  /** Reading `String(n)` back gives `n`, so distinct lines get distinct
      annotations. */
  lemma IntToStringRoundTrip(n: int)
    ensures ParseInt(IntToString(n)) == n
  {
    if n < 0 {
      NatToStringValue(-n);
      assert IntToString(n)[1..] == NatToString(-n);
    } else {
      NatToStringValue(n);
      assert IsDigit(IntToString(n)[0]);
    }
  }

  // ---------------------------------------------------------------------
  // escapeHtml

  function EscapeChar(c: char): string {
    if c == '&' then "&amp;"
    else if c == '<' then "&lt;"
    else if c == '>' then "&gt;"
    else if c == '"' then "&quot;"
    else [c]
  }

  /** markdown-it's `utils.escapeHtml`: `&`, `<`, `>` and `"` become entity
      references; the result can stand between double quotes in an attribute. */
  function EscapeHtml(s: string): (r: string)
    ensures forall i :: 0 <= i < |r| ==> r[i] != '"' && r[i] != '<' && r[i] != '>'
  {
    if |s| == 0 then "" else EscapeChar(s[0]) + EscapeHtml(s[1..])
  }

  /** Decoding of the four entity references `EscapeHtml` produces, as the
      display surface's HTML parser reads an attribute value. */
  function UnescapeHtml(s: string): string {
    if |s| == 0 then ""
    else if s[0] != '&' then [s[0]] + UnescapeHtml(s[1..])
    else if StartsWith(s, "&amp;") then "&" + UnescapeHtml(s[5..])
    else if StartsWith(s, "&lt;") then "<" + UnescapeHtml(s[4..])
    else if StartsWith(s, "&gt;") then ">" + UnescapeHtml(s[4..])
    else if StartsWith(s, "&quot;") then "\"" + UnescapeHtml(s[6..])
    else [s[0]] + UnescapeHtml(s[1..])
  }

  /** Decoding one escaped character in front of any text. */
  lemma UnescapeEscapeChar(c: char, rest: string)
    ensures UnescapeHtml(EscapeChar(c) + rest) == [c] + UnescapeHtml(rest)
  {
    var e := EscapeChar(c);
    var t := e + rest;
    assert t[..|e|] == e && t[|e|..] == rest;
    if c == '<' {
      assert t[1] == 'l';
    } else if c == '>' {
      assert t[1] == 'g';
    } else if c == '"' {
      assert t[1] == 'q';
    } else if c != '&' {
      assert t[0] == c;
    }
  }

  /** The escaped text decodes back to the original. */
  lemma {:induction false} UnescapeEscape(s: string)
    ensures UnescapeHtml(EscapeHtml(s)) == s
  {
    if |s| > 0 {
      UnescapeEscape(s[1..]);
      UnescapeEscapeChar(s[0], EscapeHtml(s[1..]));
      assert s == [s[0]] + s[1..];
    }
  }
}
