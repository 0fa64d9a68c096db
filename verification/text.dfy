/** The string primitives the application leans on, written out:
    Python's `str.split()` (runs of whitespace) and `str.split(' ')` (one
    separator character), the case folding used for case-insensitive
    comparisons, JavaScript's `String.prototype.includes`, and the decimal
    rendering of a number inside a template literal. */
module Text {

  // ---------------------------------------------------------------------
  // Whitespace and Python's argument-less str.split()
  // ---------------------------------------------------------------------

  /** The characters Python's `str.isspace()` accepts; `str.split()` with no
      separator splits on runs of exactly these. */
  predicate IsSpace(c: char) {
    || ('\t' <= c <= '\r')
    || ('\U{1C}' <= c <= '\U{1F}')
    || c == ' '
    || c == '\U{85}'
    || c == '\U{A0}'
    || c == '\U{1680}'
    || ('\U{2000}' <= c <= '\U{200A}')
    || c == '\U{2028}'
    || c == '\U{2029}'
    || c == '\U{202F}'
    || c == '\U{205F}'
    || c == '\U{3000}'
  }

  predicate NoSpace(s: string) {
    forall i :: 0 <= i < |s| ==> !IsSpace(s[i])
  }

  predicate AllSpace(s: string) {
    forall i :: 0 <= i < |s| ==> IsSpace(s[i])
  }

  /** `s` without its leading whitespace. */
  function TrimStart(s: string): (r: string)
    ensures |r| <= |s|
    ensures |r| > 0 ==> !IsSpace(r[0])
    decreases |s|
  {
    if |s| > 0 && IsSpace(s[0]) then TrimStart(s[1..]) else s
  }

  /** What `TrimStart` removes is a whitespace prefix. */
  lemma {:induction false} TrimStartShape(s: string)
    ensures s == s[..|s| - |TrimStart(s)|] + TrimStart(s)
    ensures AllSpace(s[..|s| - |TrimStart(s)|])
    decreases |s|
  {
    if |s| > 0 && IsSpace(s[0]) {
      var r := TrimStart(s[1..]);
      assert TrimStart(s) == r;
      TrimStartShape(s[1..]);
      var p := s[1..][..|s| - 1 - |r|];
      assert s[..|s| - |r|] == [s[0]] + p;
      assert s == [s[0]] + s[1..];
      ConcatAssoc([s[0]], p, r);
    }
  }

  /** The longest prefix of `s` that holds no whitespace. */
  function Word(s: string): (w: string)
    ensures |w| <= |s|
    ensures NoSpace(w)
    ensures |s| > 0 && !IsSpace(s[0]) ==> |w| > 0
    decreases |s|
  {
    if |s| == 0 || IsSpace(s[0]) then "" else [s[0]] + Word(s[1..])
  }

  /** `Word` stops at the first whitespace character, or at the end. */
  lemma {:induction false} WordShape(s: string)
    ensures s == Word(s) + s[|Word(s)|..]
    ensures |Word(s)| < |s| ==> IsSpace(s[|Word(s)|])
    decreases |s|
  {
    if |s| > 0 && !IsSpace(s[0]) {
      WordShape(s[1..]);
      assert s[1..][|Word(s[1..])|..] == s[|Word(s)|..];
    }
  }

  /** Python's `s.split()`: the maximal whitespace-free runs of `s`, in
      order; empty pieces are never produced. */
  function Split(s: string): (parts: seq<string>)
    ensures forall i :: 0 <= i < |parts| ==> IsWord(parts[i])
    decreases |s|
  {
    var t := TrimStart(s);
    if |t| == 0 then []
    else
      var w := Word(t);
      [w] + Split(t[|w|..])
  }

  /** Python's `' '.join(parts)`. */
  function JoinSpaced(parts: seq<string>): string
    decreases |parts|
  {
    if |parts| == 0 then ""
    else if |parts| == 1 then parts[0]
    else parts[0] + " " + JoinSpaced(parts[1..])
  }

  lemma {:induction false} TrimStartSkipsSpace(w: string, s: string)
    requires AllSpace(w)
    ensures TrimStart(w + s) == TrimStart(s)
    decreases |w|
  {
    if |w| == 0 {
      assert w + s == s;
    } else {
      assert (w + s)[1..] == w[1..] + s;
      TrimStartSkipsSpace(w[1..], s);
    }
  }

  /** Leading whitespace never changes the pieces. */
  lemma SplitSkipsLeadingSpace(w: string, s: string)
    requires AllSpace(w)
    ensures Split(w + s) == Split(s)
  {
    TrimStartSkipsSpace(w, s);
  }

  lemma {:induction false} WordOfNoSpace(p: string, rest: string)
    requires NoSpace(p)
    requires |rest| == 0 || IsSpace(rest[0])
    ensures Word(p + rest) == p
    decreases |p|
  {
    if |p| == 0 {
      assert p + rest == rest;
    } else {
      assert (p + rest)[0] == p[0];
      assert (p + rest)[1..] == p[1..] + rest;
      WordOfNoSpace(p[1..], rest);
      assert [p[0]] + p[1..] == p;
    }
  }

  /** A whitespace-free word followed by whitespace (or nothing) is the first
      piece. */
  lemma SplitLeadingWord(p: string, rest: string)
    requires |p| > 0 && NoSpace(p)
    requires |rest| == 0 || IsSpace(rest[0])
    ensures Split(p + rest) == [p] + Split(rest)
  {
    var t := p + rest;
    assert t[0] == p[0];
    assert TrimStart(t) == t;
    WordOfNoSpace(p, rest);
    assert t[|p|..] == rest;
  }

  /** A string of whitespace only has no pieces. */
  lemma SplitAllSpace(w: string)
    requires AllSpace(w)
    ensures Split(w) == []
  {
    assert w + "" == w;
    SplitSkipsLeadingSpace(w, "");
    assert Split("") == [];
  }

  /** Splitting ignores whatever whitespace `TrimStart` removes. */
  lemma SplitTrimStart(s: string)
    ensures Split(s) == Split(TrimStart(s))
  {
    var t := TrimStart(s);
    TrimStartShape(s);
    SplitSkipsLeadingSpace(s[..|s| - |t|], t);
  }

  lemma SplitTrimStartAppend(s: string, w: string)
    ensures Split(s + w) == Split(TrimStart(s) + w)
  {
    var t := TrimStart(s);
    var a := s[..|s| - |t|];
    TrimStartShape(s);
    ConcatAssoc(a, t, w);
    SplitSkipsLeadingSpace(a, t + w);
  }

  /** Trailing whitespace never changes the pieces. */
  lemma {:induction false} SplitIgnoresTrailingSpace(s: string, w: string)
    requires AllSpace(w)
    ensures Split(s + w) == Split(s)
    decreases |s|
  {
    var t := TrimStart(s);
    SplitTrimStartAppend(s, w);
    SplitTrimStart(s);
    if |t| == 0 {
      assert t + w == w;
      SplitAllSpace(w);
    } else {
      var u := t[|Word(t)|..];
      SplitIgnoresTrailingSpace(u, w);
      WordThenSpace(t, w);
    }
  }

  /** The induction step: a string that starts with a word keeps its pieces
      when whitespace is appended, provided its remainder after the word
      does. */
  lemma WordThenSpace(t: string, w: string)
    requires |t| > 0 && !IsSpace(t[0])
    requires AllSpace(w)
    requires Split(t[|Word(t)|..] + w) == Split(t[|Word(t)|..])
    ensures Split(t + w) == Split(t)
  {
    var wd := Word(t);
    var u := t[|wd|..];
    WordShape(t);
    ConcatAssoc(wd, u, w);
    assert |u| == 0 || IsSpace(u[0]);
    SplitLeadingWord(wd, u);
    if |u| > 0 {
      assert (u + w)[0] == u[0];
    } else {
      assert u + w == w;
    }
    SplitLeadingWord(wd, u + w);
  }

  lemma ConcatAssoc(a: string, b: string, c: string)
    ensures (a + b) + c == a + (b + c)
  {
  }

  /** A piece is non-empty and whitespace-free. */
  predicate IsWord(w: string) {
    |w| > 0 && NoSpace(w)
  }

  lemma SplitWord(p: string)
    requires IsWord(p)
    ensures Split(p) == [p]
  {
    assert p + "" == p;
    SplitLeadingWord(p, "");
  }

  lemma SplitSpacedWord(p: string, rest: string)
    requires IsWord(p)
    ensures Split(p + " " + rest) == [p] + Split(rest)
  {
    assert p + " " + rest == p + (" " + rest);
    assert (" " + rest)[0] == ' ';
    SplitLeadingWord(p, " " + rest);
    assert AllSpace(" ");
    SplitSkipsLeadingSpace(" ", rest);
  }

  /** Round trip: splitting the space-joined pieces gives the pieces back,
      provided each piece is non-empty and whitespace-free. */
  lemma {:induction false} SplitJoin(parts: seq<string>)
    requires forall i :: 0 <= i < |parts| ==> IsWord(parts[i])
    ensures Split(JoinSpaced(parts)) == parts
    decreases |parts|
  {
    if |parts| == 1 {
      SplitWord(parts[0]);
    } else if |parts| > 1 {
      SplitSpacedWord(parts[0], JoinSpaced(parts[1..]));
      SplitJoin(parts[1..]);
      assert [parts[0]] + parts[1..] == parts;
    }
  }

  /** Two words with whitespace around and between them split into exactly
      those two words: padding and repeated whitespace do not matter. */
  lemma SplitTwoWords(lead: string, a: string, gap: string, b: string, trail: string)
    requires AllSpace(lead) && AllSpace(trail)
    requires |gap| > 0 && AllSpace(gap)
    requires IsWord(a) && IsWord(b)
    ensures Split(lead + a + gap + b + trail) == [a, b]
  {
    var t3 := b + trail;
    var t2 := gap + t3;
    var t1 := a + t2;
    assert Split(t3) == [b] by {
      SplitLeadingWord(b, trail);
      SplitAllSpace(trail);
    }
    assert Split(t2) == [b] by {
      SplitSkipsLeadingSpace(gap, t3);
    }
    assert Split(t1) == [a, b] by {
      SplitLeadingWord(a, t2);
    }
    ConcatAssoc(gap, b, trail);
    ConcatAssoc(a, gap, t3);
    ConcatAssoc(a + gap, b, trail);
    ConcatAssoc(lead, a, t2);
    ConcatAssoc(lead + a, gap, t3);
    ConcatAssoc(lead + a + gap, b, trail);
    SplitSkipsLeadingSpace(lead, t1);
  }

  /** A non-empty run of ASCII letters is a piece. */
  lemma LettersAreWord(s: string)
    requires |s| > 0
    requires forall i :: 0 <= i < |s| ==> 'A' <= s[i] <= 'Z' || 'a' <= s[i] <= 'z'
    ensures IsWord(s)
  {
  }

  /** Two words with whitespace between them, and nothing around them. */
  lemma SplitWordGapWord(a: string, gap: string, b: string)
    requires IsWord(a) && IsWord(b)
    requires |gap| > 0 && AllSpace(gap)
    ensures Split(a + gap + b) == [a, b]
  {
    ConcatAssoc(a, gap, b);
    assert (gap + b)[0] == gap[0];
    SplitLeadingWord(a, gap + b);
    SplitSkipsLeadingSpace(gap, b);
    SplitWord(b);
  }

  // ---------------------------------------------------------------------
  // Python's str.split(sep) with a one-character separator
  // ---------------------------------------------------------------------

  /** Python's `s.split(sep)`: the pieces between single separators, empty
      pieces kept; there is always at least one piece. */
  function SplitOn(s: string, sep: char): (parts: seq<string>)
    ensures |parts| >= 1
    ensures forall i :: 0 <= i < |parts| ==> sep !in parts[i]
    decreases |s|
  {
    if |s| == 0 then [""]
    else
      var rest := SplitOn(s[1..], sep);
      if s[0] == sep then [""] + rest
      else [[s[0]] + rest[0]] + rest[1..]
  }

  /** Python's `sep.join(parts)`. */
  function JoinOn(parts: seq<string>, sep: char): string
    requires |parts| >= 1
    decreases |parts|
  {
    if |parts| == 1 then parts[0] else parts[0] + [sep] + JoinOn(parts[1..], sep)
  }

  /** Round trip one way: joining the pieces restores the string. */
  lemma {:induction false} JoinSplitOn(s: string, sep: char)
    ensures JoinOn(SplitOn(s, sep), sep) == s
    decreases |s|
  {
    if |s| > 0 {
      var rest := SplitOn(s[1..], sep);
      JoinSplitOn(s[1..], sep);
      assert s == [s[0]] + s[1..];
      if s[0] != sep && |rest| > 1 {
        assert rest == [rest[0]] + rest[1..];
      }
    }
  }

  lemma {:induction false} SplitOnPrefix(a: string, t: string, sep: char)
    requires sep !in a
    ensures SplitOn(a + t, sep) == [a + SplitOn(t, sep)[0]] + SplitOn(t, sep)[1..]
    decreases |a|
  {
    if |a| == 0 {
      var p := SplitOn(t, sep);
      assert a + t == t;
      assert a + p[0] == p[0];
      assert [p[0]] + p[1..] == p;
    } else {
      assert (a + t)[1..] == a[1..] + t;
      SplitOnPrefix(a[1..], t, sep);
      assert [a[0]] + (a[1..] + SplitOn(t, sep)[0]) == a + SplitOn(t, sep)[0];
    }
  }

  /** Round trip the other way: splitting the joined pieces gives the pieces
      back, provided no piece contains the separator. */
  lemma {:induction false} SplitOnJoin(parts: seq<string>, sep: char)
    requires |parts| >= 1
    requires forall i :: 0 <= i < |parts| ==> sep !in parts[i]
    ensures SplitOn(JoinOn(parts, sep), sep) == parts
    decreases |parts|
  {
    if |parts| == 1 {
      SplitOnPrefix(parts[0], "", sep);
      assert parts[0] + "" == parts[0];
    } else {
      var tail := JoinOn(parts[1..], sep);
      SplitOnJoin(parts[1..], sep);
      assert ([sep] + tail)[1..] == tail;
      assert SplitOn([sep] + tail, sep) == [""] + parts[1..];
      assert JoinOn(parts, sep) == parts[0] + ([sep] + tail);
      SplitOnPrefix(parts[0], [sep] + tail, sep);
      assert parts[0] + "" == parts[0];
      assert [parts[0]] + parts[1..] == parts;
    }
  }

  /** `split(sep)` yields a single piece exactly when the separator does
      not occur. */
  lemma SplitOnSingle(s: string, sep: char)
    ensures |SplitOn(s, sep)| == 1 <==> sep !in s
  {
    var p := SplitOn(s, sep);
    JoinSplitOn(s, sep);
    if sep !in s {
      SplitOnJoin([s], sep);
    }
  }

  /** With two or more pieces, the first piece is the text before the first
      separator, and the second piece is the text after it up to the next
      separator or the end. */
  lemma SplitOnSecond(s: string, sep: char)
    requires |SplitOn(s, sep)| >= 2
    ensures var p := SplitOn(s, sep);
      var k := |p[0]|;
      && k + 1 + |p[1]| <= |s|
      && s[k] == sep && s[..k] == p[0]
      && s[k + 1..k + 1 + |p[1]|] == p[1]
      && (k + 1 + |p[1]| == |s| || s[k + 1 + |p[1]|] == sep)
  {
    var p := SplitOn(s, sep);
    JoinSplitOn(s, sep);
    var rest := JoinOn(p[1..], sep);
    assert s == p[0] + [sep] + rest;
    if |p| == 2 {
      assert p[1..] == [p[1]];
      assert rest == p[1];
    } else {
      assert p[1..][1..] == p[2..];
      assert rest == p[1] + [sep] + JoinOn(p[2..], sep);
    }
  }

  // ---------------------------------------------------------------------
  // Case folding and substring search
  // ---------------------------------------------------------------------

  /** Lower-casing of one character, restricted to the ASCII letters. */
  function LowerChar(c: char): (l: char)
    ensures !('A' <= l <= 'Z')
    ensures !('A' <= c <= 'Z') ==> l == c
    ensures 'A' <= c <= 'Z' ==> l as int == c as int + 32
  {
    if 'A' <= c <= 'Z' then (c as int + 32) as char else c
  }

  /** `s.toLowerCase()` / `s.lower()` over ASCII letters. */
  function Lower(s: string): (r: string)
    ensures |r| == |s|
    ensures forall i :: 0 <= i < |s| ==> r[i] == LowerChar(s[i])
    decreases |s|
  {
    if |s| == 0 then "" else [LowerChar(s[0])] + Lower(s[1..])
  }

  /** Lower-casing twice is lower-casing once. */
  lemma LowerIdempotent(s: string)
    ensures Lower(Lower(s)) == Lower(s)
  {
  }

  predicate StartsWith(s: string, prefix: string) {
    |prefix| <= |s| && s[..|prefix|] == prefix
  }

  /** JavaScript's `s.includes(needle)`, by scanning start positions. */
  predicate Contains(s: string, needle: string)
    decreases |s|
  {
    StartsWith(s, needle) || (|s| > 0 && Contains(s[1..], needle))
  }

  /** `needle` occurs in `s` starting at position `i`. */
  predicate OccursAt(s: string, needle: string, i: int) {
    0 <= i && i + |needle| <= |s| && s[i..i + |needle|] == needle
  }

  /** `needle` occurs somewhere in `s`. */
  ghost predicate Occurs(s: string, needle: string) {
    exists i :: OccursAt(s, needle, i)
  }

  /** The scanning definition agrees with the positional one. */
  lemma {:induction false} ContainsIff(s: string, needle: string)
    ensures Contains(s, needle) <==> Occurs(s, needle)
    decreases |s|
  {
    if |s| == 0 {
      if StartsWith(s, needle) {
        assert OccursAt(s, needle, 0);
      }
      if exists i :: OccursAt(s, needle, i) {
        var i :| OccursAt(s, needle, i);
        assert i == 0;
        assert StartsWith(s, needle);
      }
    } else {
      ContainsIff(s[1..], needle);
      if StartsWith(s, needle) {
        assert OccursAt(s, needle, 0);
      }
      if Contains(s[1..], needle) {
        var i :| OccursAt(s[1..], needle, i);
        assert s[1..][i..i + |needle|] == s[i + 1..i + 1 + |needle|];
        assert OccursAt(s, needle, i + 1);
      }
      if exists i :: OccursAt(s, needle, i) {
        var i :| OccursAt(s, needle, i);
        if i == 0 {
          assert StartsWith(s, needle);
        } else {
          assert s[1..][i - 1..i - 1 + |needle|] == s[i..i + |needle|];
          assert OccursAt(s[1..], needle, i - 1);
        }
      }
    }
  }

  // ---------------------------------------------------------------------
  // Decimal rendering of natural numbers
  // ---------------------------------------------------------------------

  predicate IsDigit(c: char) {
    '0' <= c <= '9'
  }

  predicate AllDigits(s: string) {
    forall i :: 0 <= i < |s| ==> IsDigit(s[i])
  }

  function DigitValue(c: char): nat {
    if IsDigit(c) then c as int - '0' as int else 0
  }

  function DigitChar(d: nat): (c: char)
    requires d < 10
    ensures IsDigit(c) && DigitValue(c) == d
  {
    ('0' as int + d) as char
  }

  /** The decimal numeral of `n` as a template literal renders it: at least
      one digit, and no leading zero except for zero itself. */
  function NatToString(n: nat): (s: string)
    ensures |s| > 0 && AllDigits(s)
    ensures s[0] == '0' <==> n == 0
    decreases n
  {
    if n < 10 then [DigitChar(n)] else NatToString(n / 10) + [DigitChar(n % 10)]
  }

  /** The value of a string of decimal digits (zero for the empty string). */
  function ParseDigits(s: string): nat
    decreases |s|
  {
    if |s| == 0 then 0 else ParseDigits(s[..|s| - 1]) * 10 + DigitValue(s[|s| - 1])
  }

  /** Round trip: reading back the numeral gives the number. */
  lemma {:induction false} ParseNatToString(n: nat)
    ensures ParseDigits(NatToString(n)) == n
    decreases n
  {
    var s := NatToString(n);
    if n < 10 {
      assert s[..|s| - 1] == "";
    } else {
      assert s[..|s| - 1] == NatToString(n / 10);
      ParseNatToString(n / 10);
    }
  }
}
