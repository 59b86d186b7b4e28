/** Character classes and string helpers with Python's meaning: the
    whitespace of `str.split()` and of the regular-expression class `\s`,
    decimal digits, `str.split()` itself and the decimal rendering of an
    integer by `str.format`. */
module Text {

  /** A character Python counts as whitespace (`str.isspace()`); the same
      set is matched by `\s` in a `str` regular expression and separates
      the words of `str.split()`. */
  predicate IsSpace(c: char) {
    || c == ' ' || c == '\t' || c == '\n' || c == '\r'
    || c == '\U{000B}' || c == '\U{000C}'
    || ('\U{001C}' <= c <= '\U{001F}')
    || c == '\U{0085}' || c == '\U{00A0}' || c == '\U{1680}'
    || ('\U{2000}' <= c <= '\U{200A}')
    || c == '\U{2028}' || c == '\U{2029}' || c == '\U{202F}'
    || c == '\U{205F}' || c == '\U{3000}'
  }

  /** An ASCII decimal digit, the regular-expression class `[0-9]`. */
  predicate IsDigit(c: char) {
    '0' <= c <= '9'
  }

  predicate AllDigits(s: string) {
    forall i :: 0 <= i < |s| ==> IsDigit(s[i])
  }

  predicate NoSpace(s: string) {
    forall i :: 0 <= i < |s| ==> !IsSpace(s[i])
  }

  /** `key in text`: `key` occurs as a contiguous substring of `text`. */
  predicate Contains(text: string, key: string)
    decreases |text|
  {
    |key| <= |text| && (text[..|key|] == key || Contains(text[1..], key))
  }

  // ---------------------------------------------------------------------
  // str.split()

  /** Length of the longest prefix of `s` without whitespace. */
  function WordLength(s: string): (n: nat)
    ensures n <= |s|
    ensures NoSpace(s[..n])
    ensures n < |s| ==> IsSpace(s[n])
  {
    if s == [] || IsSpace(s[0]) then 0
    else
      var n := 1 + WordLength(s[1..]);
      assert s[..n] == [s[0]] + s[1..][..n - 1];
      n
  }

  /** Python's `s.split()` with no separator: the maximal runs of
      non-whitespace characters, in order; leading, trailing and repeated
      whitespace produce no empty words. */
  function Split(s: string): (words: seq<string>)
    ensures forall i :: 0 <= i < |words| ==> |words[i]| > 0 && NoSpace(words[i])
    decreases |s|
  {
    if s == [] then []
    else if IsSpace(s[0]) then Split(s[1..])
    else
      var n := WordLength(s);
      [s[..n]] + Split(s[n..])
  }

  /** The characters of `s` that are not whitespace, in order. */
  function Squeeze(s: string): (r: string)
    ensures NoSpace(r)
  {
    if s == [] then []
    else if IsSpace(s[0]) then Squeeze(s[1..])
    else [s[0]] + Squeeze(s[1..])
  }

  function Concat(words: seq<string>): string {
    if words == [] then [] else words[0] + Concat(words[1..])
  }

  /** Joins words with one space between consecutive words, as
      `" ".join(words)` does. */
  function JoinSpaced(words: seq<string>): string {
    if words == [] then []
    else if |words| == 1 then words[0]
    else words[0] + " " + JoinSpaced(words[1..])
  }

  lemma {:induction false} SqueezeConcat(a: string, b: string)
    ensures Squeeze(a + b) == Squeeze(a) + Squeeze(b)
  {
    if a == [] {
      assert a + b == b;
    } else {
      assert (a + b)[1..] == a[1..] + b;
      SqueezeConcat(a[1..], b);
    }
  }

  lemma {:induction false} SqueezeNoSpace(s: string)
    requires NoSpace(s)
    ensures Squeeze(s) == s
  {
    if s != [] {
      SqueezeNoSpace(s[1..]);
    }
  }

  /** Splitting loses exactly the whitespace: gluing the words back
      together gives the non-whitespace characters of the input in order. */
  lemma {:induction false} SplitKeepsAllNonSpace(s: string)
    ensures Concat(Split(s)) == Squeeze(s)
    decreases |s|
  {
    if s == [] {
    } else if IsSpace(s[0]) {
      SplitKeepsAllNonSpace(s[1..]);
    } else {
      var n := WordLength(s);
      SplitKeepsAllNonSpace(s[n..]);
      assert s == s[..n] + s[n..];
      SqueezeConcat(s[..n], s[n..]);
      SqueezeNoSpace(s[..n]);
      assert ([s[..n]] + Split(s[n..]))[1..] == Split(s[n..]);
    }
  }

  /** The split of an all-whitespace string (in particular of "") is empty,
      and only then. */
  lemma {:induction false} SplitEmptyIff(s: string)
    ensures Split(s) == [] <==> forall i :: 0 <= i < |s| ==> IsSpace(s[i])
    decreases |s|
  {
    if s != [] {
      SplitEmptyIff(s[1..]);
      if !IsSpace(s[0]) {
        assert Split(s)[0] == s[..WordLength(s)];
      } else {
        assert forall i :: 1 <= i < |s| ==> s[i] == s[1..][i - 1];
      }
    }
  }

  lemma {:induction false} SplitWordThenRest(w: string, rest: string)
    requires |w| > 0 && NoSpace(w)
    requires rest == [] || IsSpace(rest[0])
    ensures Split(w + rest) == [w] + Split(rest)
  {
    var s := w + rest;
    WordLengthOf(w, rest);
    assert s[..|w|] == w;
    assert s[|w|..] == rest;
  }

  lemma {:induction false} WordLengthOf(w: string, rest: string)
    requires NoSpace(w)
    requires rest == [] || IsSpace(rest[0])
    ensures WordLength(w + rest) == |w|
  {
    if w != [] {
      assert (w + rest)[1..] == w[1..] + rest;
      WordLengthOf(w[1..], rest);
    }
  }

  /** Round trip: splitting words joined by single spaces gives the words
      back. */
  lemma {:induction false} SplitJoinSpaced(words: seq<string>)
    requires forall i :: 0 <= i < |words| ==> |words[i]| > 0 && NoSpace(words[i])
    ensures Split(JoinSpaced(words)) == words
  {
    if words == [] {
    } else if |words| == 1 {
      SplitWordThenRest(words[0], []);
      assert words[0] + [] == words[0];
    } else {
      var rest := JoinSpaced(words[1..]);
      SplitJoinSpaced(words[1..]);
      assert words[0] + " " + rest == words[0] + (" " + rest);
      SplitWordThenRest(words[0], " " + rest);
      assert (" " + rest)[1..] == rest;
    }
  }

  predicate AllSpace(s: string) {
    forall i :: 0 <= i < |s| ==> IsSpace(s[i])
  }

  /** A single word splits into itself. */
  lemma SplitWord(w: string)
    requires |w| > 0 && NoSpace(w)
    ensures Split(w) == [w]
  {
    SplitWordThenRest(w, []);
    assert w + [] == w;
  }

  /** Leading whitespace produces no word. */
  lemma {:induction false} SplitSkipSpace(ws: string, b: string)
    requires AllSpace(ws)
    ensures Split(ws + b) == Split(b)
    decreases |ws|
  {
    if ws != [] {
      assert (ws + b)[0] == ws[0] && IsSpace(ws[0]);
      assert (ws + b)[1..] == ws[1..] + b;
      assert forall i :: 0 <= i < |ws| - 1 ==> ws[1..][i] == ws[i + 1];
      SplitSkipSpace(ws[1..], b);
      assert Split(ws + b) == Split((ws + b)[1..]);
    } else {
      assert ws + b == b;
    }
  }

  /** A non-empty run of whitespace separates words: the split of
      `a + ws + b` is the split of `a` followed by the split of `b`. With
      `SplitWord` and `Split("") == []` this determines `Split` on every
      string. */
  lemma {:induction false} SplitAround(a: string, ws: string, b: string)
    requires |ws| > 0 && AllSpace(ws)
    ensures Split(a + ws + b) == Split(a) + Split(b)
    decreases |a|
  {
    if a == [] {
      assert a + ws + b == ws + b;
      SplitSkipSpace(ws, b);
    } else if IsSpace(a[0]) {
      SplitAround(a[1..], ws, b);
      SpaceThenRest(a, ws, b);
    } else {
      var n := WordLength(a);
      var w, rest := a[..n], a[n..];
      SplitAround(rest, ws, b);
      SpaceAfterWord(rest, ws, b);
      SplitWordThenRest(w, rest + ws + b);
      SplitWordThenRest(w, rest);
      WordParts(a, w, rest, ws, b);
    }
  }

  /** A leading space is skipped both with and without what follows. */
  lemma SpaceThenRest(a: string, ws: string, b: string)
    requires |a| > 0 && IsSpace(a[0])
    ensures Split(a) == Split(a[1..])
    ensures Split(a + ws + b) == Split(a[1..] + ws + b)
  {
    assert (a + ws + b)[0] == a[0];
    assert (a + ws + b)[1..] == a[1..] + ws + b;
  }

  /** After a word comes either the end or whitespace. */
  lemma SpaceAfterWord(rest: string, ws: string, b: string)
    requires rest == [] || IsSpace(rest[0])
    requires |ws| > 0 && AllSpace(ws)
    ensures IsSpace((rest + ws + b)[0])
  {
    if rest == [] {
      assert (rest + ws + b)[0] == ws[0];
    }
  }

  lemma WordParts(a: string, w: string, rest: string, ws: string, b: string)
    requires a == w + rest
    ensures a + ws + b == w + (rest + ws + b)
  {
  }

  // ---------------------------------------------------------------------
  // Decimal rendering of natural numbers

  function DigitChar(d: nat): (c: char)
    requires d < 10
    ensures IsDigit(c)
  {
    (48 + d) as char
  }

  function DigitValue(c: char): (d: nat)
    requires IsDigit(c)
    ensures d < 10
  {
    (c as int) - 48
  }

  /** `"{}".format(n)` for a natural number: decimal digits, most
      significant first, with no leading zero. */
  function NatToString(n: nat): (s: string)
    ensures |s| > 0 && AllDigits(s)
    ensures |s| > 1 ==> s[0] != '0'
    decreases n
  {
    if n < 10 then [DigitChar(n)]
    else NatToString(n / 10) + [DigitChar(n % 10)]
  }

  /** `int(s)` for a non-empty string of ASCII digits. */
  function ParseNat(s: string): nat
    requires AllDigits(s)
    decreases |s|
  {
    if s == [] then 0
    else ParseNat(s[..|s| - 1]) * 10 + DigitValue(s[|s| - 1])
  }

  /** Round trip: reading back the rendered number gives the number. */
  lemma {:induction false} ParseNatToString(n: nat)
    ensures ParseNat(NatToString(n)) == n
    decreases n
  {
    var s := NatToString(n);
    if n >= 10 {
      ParseNatToString(n / 10);
      assert s[..|s| - 1] == NatToString(n / 10);
    }
  }
}
