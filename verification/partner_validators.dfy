/** The two regular-expression validators of a partner's postal address
    (partners/models.py): the Dutch zip code `^[1-9][0-9]{3}[\s]?[A-Za-z]{2}$`
    and the street address
    `^([1-9][e][\s])*([ëéÉËa-zA-Z]+(([\.][\s])|([\s]))?)+[1-9][0-9]*(([-][1-9][0-9]*)|([\s]?[ëéÉËa-zA-Z]+))?$`,
    each as a hand-written recogniser. The validator searches with Python's
    `re`, where `$` also matches just before a final newline, so both accept
    one trailing "\n". `\s` is Python's Unicode whitespace (`Text.IsSpace`). */
module PartnerValidators {
  import opened Text

  predicate IsNonZeroDigit(c: char) {
    '1' <= c <= '9'
  }

  /** `[A-Za-z]` */
  predicate IsAsciiLetter(c: char) {
    ('a' <= c <= 'z') || ('A' <= c <= 'Z')
  }

  /** `[ëéÉËa-zA-Z]` */
  predicate IsAddressLetter(c: char) {
    IsAsciiLetter(c) || c == 'ë' || c == 'é' || c == 'É' || c == 'Ë'
  }

  /** Applies a pattern anchored with `^...$`: the whole string matches, or
      everything but one final newline does. */
  predicate AnchoredMatch(s: string, core: string -> bool) {
    core(s) || (|s| > 0 && s[|s| - 1] == '\n' && core(s[..|s| - 1]))
  }

  // -----------------------------------------------------------------------
  // Zip code

  /** `[1-9][0-9]{3}[\s]?[A-Za-z]{2}` on the whole of `t`. */
  predicate ZipCore(t: string) {
    && (|t| == 6 || |t| == 7)
    && IsNonZeroDigit(t[0]) && IsDigit(t[1]) && IsDigit(t[2]) && IsDigit(t[3])
    && (|t| == 7 ==> IsSpace(t[4]))
    && IsAsciiLetter(t[|t| - 2]) && IsAsciiLetter(t[|t| - 1])
  }

  /** The zip-code validator. An accepted zip code is a non-zero digit,
      three digits, at most one whitespace character and two ASCII letters,
      optionally followed by the one final newline the validator's `$` lets
      through. */
  function ZipCodeValid(s: string): (ok: bool)
    ensures ok ==> 6 <= |s| <= 8
    ensures ok ==> var t := if s[|s| - 1] == '\n' then s[..|s| - 1] else s;
      && (s == t || s == t + "\n")
      && (|t| == 6 || |t| == 7)
      && IsNonZeroDigit(t[0]) && AllDigits(t[1..4])
      && (|t| == 7 ==> IsSpace(t[4]))
      && IsAsciiLetter(t[|t| - 2]) && IsAsciiLetter(t[|t| - 1])
  {
    var t := if |s| > 0 && s[|s| - 1] == '\n' then s[..|s| - 1] else s;
    ZipCoreDigits(t);
    AnchoredMatch(s, ZipCore)
  }

  lemma ZipCoreDigits(t: string)
    ensures ZipCore(t) ==> AllDigits(t[1..4])
  {
    if ZipCore(t) {
      assert t[1..4][0] == t[1] && t[1..4][1] == t[2] && t[1..4][2] == t[3];
    }
  }

  /** Conversely, every such string is accepted. */
  lemma ZipCodeComplete(digits: string, sep: string, letters: string)
    requires |digits| == 4 && IsNonZeroDigit(digits[0]) && AllDigits(digits[1..])
    requires sep == [] || (|sep| == 1 && IsSpace(sep[0]))
    requires |letters| == 2 && IsAsciiLetter(letters[0]) && IsAsciiLetter(letters[1])
    ensures ZipCodeValid(digits + sep + letters)
    ensures ZipCodeValid(digits + sep + letters + "\n")
  {
    var t := digits + sep + letters;
    assert t[1] == digits[1..][0] && t[2] == digits[1..][1] && t[3] == digits[1..][2];
    assert ZipCore(t);
    assert (t + "\n")[..|t + "\n"| - 1] == t;
  }

  lemma ZipCodeExamples()
    ensures ZipCodeValid("6525 AJ") && ZipCodeValid("6525AJ")
    ensures !ZipCodeValid("0525AJ") && !ZipCodeValid("6525  AJ") && !ZipCodeValid("652AJ")
    ensures ZipCodeValid("6525AJ\n")
  {
    assert "6525AJ\n"[..6] == "6525AJ";
    assert "6525  AJ"[..7] == "6525  A";
  }

  // -----------------------------------------------------------------------
  // Address: the pattern, group by group

  /** `[1-9][e][\s]`, as in "2e " (Dutch for "2nd"). */
  predicate PrefixUnit(u: string) {
    |u| == 3 && IsNonZeroDigit(u[0]) && u[1] == 'e' && IsSpace(u[2])
  }

  /** `([1-9][e][\s])*` */
  predicate InPrefix(s: string)
    decreases |s|
  {
    s == [] || (|s| >= 3 && PrefixUnit(s[..3]) && InPrefix(s[3..]))
  }

  /** `[ëéÉËa-zA-Z]+` */
  predicate Letters(s: string) {
    |s| > 0 && forall i :: 0 <= i < |s| ==> IsAddressLetter(s[i])
  }

  /** `(([\.][\s])|([\s]))?` */
  predicate Separator(s: string) {
    s == [] || (|s| == 1 && IsSpace(s[0])) || (|s| == 2 && s[0] == '.' && IsSpace(s[1]))
  }

  /** One word of the street name, `[ëéÉËa-zA-Z]+(([\.][\s])|([\s]))?`. */
  ghost predicate Group(g: string) {
    exists k :: 0 < k <= |g| && Letters(g[..k]) && Separator(g[k..])
  }

  /** The street name, one or more groups. */
  ghost predicate InWords(s: string)
    decreases |s|
  {
    exists k :: 0 < k <= |s| && Group(s[..k]) && (k == |s| || InWords(s[k..]))
  }

  /** The house number `[1-9][0-9]*`. */
  predicate HouseNumber(s: string) {
    |s| > 0 && IsNonZeroDigit(s[0]) && forall i :: 1 <= i < |s| ==> IsDigit(s[i])
  }

  /** The optional ending: a `-N` range, or letters after at most one
      whitespace character. */
  predicate AddressSuffix(s: string) {
    || s == []
    || (|s| >= 2 && s[0] == '-' && HouseNumber(s[1..]))
    || Letters(s)
    || (|s| >= 2 && IsSpace(s[0]) && Letters(s[1..]))
  }

  ghost predicate Splits(s: string, i: int, j: int, k: int) {
    0 <= i <= j <= k <= |s|
  }

  /** The address pattern between `^` and `$`: prefix, street name, house
      number and ending, one after the other. */
  ghost predicate AddressGrammar(s: string) {
    exists i, j, k {:trigger Splits(s, i, j, k)} :: Splits(s, i, j, k)
      && InPrefix(s[..i]) && InWords(s[i..j]) && HouseNumber(s[j..k]) && AddressSuffix(s[k..])
  }

  // -----------------------------------------------------------------------
  // Address: the recogniser

  /** End of the longest run of prefix units starting at `i`. */
  function PrefixEnd(s: string, i: nat): (e: nat)
    requires i <= |s|
    ensures i <= e <= |s|
    ensures InPrefix(s[i..e])
    decreases |s| - i
  {
    if i + 3 <= |s| && PrefixUnit(s[i..i + 3]) then
      var e := PrefixEnd(s, i + 3);
      assert s[i..e][..3] == s[i..i + 3] && s[i..e][3..] == s[i + 3..e];
      e
    else
      assert s[i..i] == [];
      i
  }

  /** First index at or after `i` holding a digit, or `|s|`. */
  function NextDigit(s: string, i: nat): (j: nat)
    requires i <= |s|
    ensures i <= j <= |s|
    ensures forall m :: i <= m < j ==> !IsDigit(s[m])
    ensures j < |s| ==> IsDigit(s[j])
    decreases |s| - i
  {
    if i == |s| || IsDigit(s[i]) then i else NextDigit(s, i + 1)
  }

  /** First index at or after `j` not holding a digit, or `|s|`. */
  function DigitsEnd(s: string, j: nat): (k: nat)
    requires j <= |s|
    ensures j <= k <= |s|
    ensures forall m :: j <= m < k ==> IsDigit(s[m])
    ensures k < |s| ==> !IsDigit(s[k])
    decreases |s| - j
  {
    if j == |s| || !IsDigit(s[j]) then j else DigitsEnd(s, j + 1)
  }

  /** Street-name automaton, state "inside a word": more letters, a
      separator, or the end. */
  predicate InWord(t: string)
    decreases |t|
  {
    || t == []
    || (IsAddressLetter(t[0]) && InWord(t[1..]))
    || (IsSpace(t[0]) && AfterSeparator(t[1..]))
    || (|t| >= 2 && t[0] == '.' && IsSpace(t[1]) && AfterSeparator(t[2..]))
  }

  /** Street-name automaton, state "after a separator": a new word or the
      end. */
  predicate AfterSeparator(t: string)
    decreases |t|
  {
    t == [] || (IsAddressLetter(t[0]) && InWord(t[1..]))
  }

  predicate StreetName(s: string) {
    |s| > 0 && IsAddressLetter(s[0]) && InWord(s[1..])
  }

  /** The recogniser on the whole of `t`: the prefix is consumed greedily,
      the street name runs up to the first digit and the house number over
      the digits that follow. */
  predicate AddressCore(t: string) {
    var i := PrefixEnd(t, 0);
    var j := NextDigit(t, i);
    var k := DigitsEnd(t, j);
    StreetName(t[i..j]) && j < |t| && IsNonZeroDigit(t[j]) && AddressSuffix(t[k..])
  }

  /** The address validator; it accepts exactly the strings the anchored
      pattern matches. */
  function AddressValid(s: string): (ok: bool)
    ensures ok <==> AnchoredMatch(s, AddressGrammar)
  {
    AddressCoreIff(s);
    if |s| > 0 then
      AddressCoreIff(s[..|s| - 1]);
      AnchoredMatch(s, AddressCore)
    else
      AnchoredMatch(s, AddressCore)
  }

  // -----------------------------------------------------------------------
  // The recogniser accepts exactly the pattern's language

  lemma {:induction false} LettersThenInWord(a: string, t: string)
    requires forall i :: 0 <= i < |a| ==> IsAddressLetter(a[i])
    requires InWord(t)
    ensures InWord(a + t)
  {
    if a == [] {
      assert a + t == t;
    } else {
      LettersThenInWord(a[1..], t);
      assert (a + t)[1..] == a[1..] + t;
      assert (a + t)[0] == a[0];
      assert IsAddressLetter((a + t)[0]);
    }
  }

  /** A run of `k` letters followed by a street-name tail is a street name
      in the pattern's sense. */
  lemma {:induction false} InWordToGroups(s: string, k: nat)
    requires 0 < k <= |s| && Letters(s[..k]) && InWord(s[k..])
    ensures InWords(s)
    decreases |s|, |s| - k
  {
    var t := s[k..];
    if t == [] {
      assert s[..|s|] == s && s[..k][..k] == s[..k] && s[..k][k..] == [];
      assert Group(s[..k]);
    } else if IsAddressLetter(t[0]) {
      assert s[..k + 1] == s[..k] + [t[0]];
      assert t[1..] == s[k + 1..];
      InWordToGroups(s, k + 1);
    } else if IsSpace(t[0]) {
      var g := s[..k + 1];
      assert g[..k] == s[..k] && g[k..] == [t[0]];
      assert Group(g);
      var rest := s[k + 1..];
      assert rest == t[1..];
      if rest != [] {
        assert rest[..1] == [rest[0]] && rest[1..] == t[2..];
        InWordToGroups(rest, 1);
      }
    } else {
      assert |t| >= 2 && t[0] == '.' && IsSpace(t[1]) && AfterSeparator(t[2..]);
      var g := s[..k + 2];
      assert g[..k] == s[..k] && g[k..] == t[..2];
      assert Group(g);
      var rest := s[k + 2..];
      assert rest == t[2..];
      if rest != [] {
        assert rest[..1] == [rest[0]];
        InWordToGroups(rest, 1);
      }
    }
  }

  /** A separator followed by the rest of a street name. */
  lemma SeparatorThenRest(sep: string, rest: string)
    requires Separator(sep) && AfterSeparator(rest)
    ensures InWord(sep + rest)
  {
    if sep == [] {
      assert sep + rest == rest;
      if rest != [] {
        assert IsAddressLetter(rest[0]) && InWord(rest[1..]);
      }
    } else if |sep| == 1 {
      assert (sep + rest)[1..] == rest;
      assert (sep + rest)[0] == sep[0];
    } else {
      assert (sep + rest)[2..] == rest;
      assert (sep + rest)[0] == sep[0] && (sep + rest)[1] == sep[1];
    }
  }

  lemma StreetNameIsAfterSeparator(s: string)
    requires StreetName(s)
    ensures AfterSeparator(s)
  {
  }

  lemma {:induction false} GroupsToStreetName(s: string)
    requires InWords(s)
    ensures StreetName(s)
    decreases |s|
  {
    var k :| 0 < k <= |s| && Group(s[..k]) && (k == |s| || InWords(s[k..]));
    var g := s[..k];
    var rest := s[k..];
    if rest != [] {
      GroupsToStreetName(rest);
      StreetNameIsAfterSeparator(rest);
    }
    GroupThenRest(g, rest);
    assert s == g + rest;
  }

  lemma GroupThenRest(g: string, rest: string)
    requires Group(g) && AfterSeparator(rest)
    ensures StreetName(g + rest)
  {
    var m :| 0 < m <= |g| && Letters(g[..m]) && Separator(g[m..]);
    var sep := g[m..];
    SeparatorThenRest(sep, rest);
    WordThenRest(g[..m], sep + rest);
    SplitAt(g, m, rest);
  }

  lemma SplitAt(g: string, m: nat, rest: string)
    requires m <= |g|
    ensures g + rest == g[..m] + (g[m..] + rest)
  {
    assert g == g[..m] + g[m..];
  }

  lemma WordThenRest(w: string, tail: string)
    requires Letters(w) && InWord(tail)
    ensures StreetName(w + tail)
  {
    var more := w[1..];
    LettersAfterFirst(w);
    LettersThenInWord(more, tail);
    LetterThenInWord(w[0], more + tail);
    HeadAndRest(w, tail);
  }

  lemma LettersAfterFirst(w: string)
    requires Letters(w)
    ensures forall i :: 0 <= i < |w[1..]| ==> IsAddressLetter(w[1..][i])
  {
  }

  lemma HeadAndRest(w: string, tail: string)
    requires w != []
    ensures w + tail == [w[0]] + (w[1..] + tail)
  {
  }

  lemma LetterThenInWord(c: char, t: string)
    requires IsAddressLetter(c) && InWord(t)
    ensures StreetName([c] + t)
  {
    assert ([c] + t)[1..] == t;
  }

  /** The automaton and the pattern agree on the street name. */
  lemma StreetNameIff(s: string)
    ensures StreetName(s) <==> InWords(s)
  {
    if StreetName(s) {
      assert s[..1] == [s[0]];
      InWordToGroups(s, 1);
    }
    if InWords(s) {
      GroupsToStreetName(s);
    }
  }

  predicate NoDigit(s: string) {
    forall i :: 0 <= i < |s| ==> !IsDigit(s[i])
  }

  lemma {:induction false} InWordNoDigit(t: string)
    requires InWord(t) || AfterSeparator(t)
    ensures NoDigit(t)
    decreases |t|
  {
    if t != [] {
      if IsAddressLetter(t[0]) {
        InWordNoDigit(t[1..]);
      } else if IsSpace(t[0]) {
        InWordNoDigit(t[1..]);
      } else {
        InWordNoDigit(t[2..]);
        assert t == t[..2] + t[2..];
      }
    }
  }

  lemma {:induction false} PrefixEndGreedy(s: string, i: nat, p: nat)
    requires i <= p < |s| && InPrefix(s[i..p]) && IsAddressLetter(s[p])
    ensures PrefixEnd(s, i) == p
    decreases p - i
  {
    if i < p {
      assert s[i..p][..3] == s[i..i + 3] && s[i..p][3..] == s[i + 3..p];
      PrefixEndGreedy(s, i + 3, p);
    }
  }

  lemma AddressCoreSound(t: string)
    requires AddressCore(t)
    ensures AddressGrammar(t)
  {
    var i := PrefixEnd(t, 0);
    var j := NextDigit(t, i);
    var k := DigitsEnd(t, j);
    StreetNameIff(t[i..j]);
    assert HouseNumber(t[j..k]);
    assert t[..i] == t[0..i];
    assert Splits(t, i, j, k);
  }

  /** A street name holds no digit, so the house number starts at the
      first digit after the prefix. */
  lemma StreetNameNoDigit(t: string, i: nat, j: nat)
    requires i <= j <= |t| && StreetName(t[i..j])
    ensures forall m :: i <= m < j ==> !IsDigit(t[m])
  {
    InWordNoDigit(t[i + 1..j]);
    forall m | i <= m < j
      ensures !IsDigit(t[m])
    {
      if m > i {
        assert t[m] == t[i + 1..j][m - i - 1];
      } else {
        assert t[m] == t[i..j][0];
      }
    }
  }

  lemma NumberThenSuffix(t: string, j: nat, k: nat)
    requires j <= k <= |t| && HouseNumber(t[j..k]) && AddressSuffix(t[k..])
    ensures DigitsEnd(t, j) == k
  {
    forall m | j <= m < k
      ensures IsDigit(t[m])
    {
      assert t[m] == t[j..k][m - j];
    }
    if k < |t| {
      assert t[k] == t[k..][0];
    }
    DigitsEndAt(t, j, k);
  }

  lemma AddressCoreComplete(t: string)
    requires AddressGrammar(t)
    ensures AddressCore(t)
  {
    var i, j, k :| Splits(t, i, j, k)
      && InPrefix(t[..i]) && InWords(t[i..j]) && HouseNumber(t[j..k]) && AddressSuffix(t[k..]);
    StreetNameIff(t[i..j]);
    assert t[..i] == t[0..i];
    assert t[i] == t[i..j][0];
    PrefixEndGreedy(t, 0, i);
    StreetNameNoDigit(t, i, j);
    assert t[j] == t[j..k][0];
    NextDigitAt(t, i, j);
    NumberThenSuffix(t, j, k);
  }

  lemma {:induction false} NextDigitAt(s: string, i: nat, j: nat)
    requires i <= j < |s| && IsDigit(s[j])
    requires forall m :: i <= m < j ==> !IsDigit(s[m])
    ensures NextDigit(s, i) == j
    decreases j - i
  {
    if i < j {
      NextDigitAt(s, i + 1, j);
    }
  }

  lemma {:induction false} DigitsEndAt(s: string, j: nat, k: nat)
    requires j <= k <= |s|
    requires forall m :: j <= m < k ==> IsDigit(s[m])
    requires k < |s| ==> !IsDigit(s[k])
    ensures DigitsEnd(s, j) == k
    decreases k - j
  {
    if j < k {
      DigitsEndAt(s, j + 1, k);
    }
  }

  /** The recogniser accepts exactly the pattern's language. */
  lemma AddressCoreIff(t: string)
    ensures AddressCore(t) <==> AddressGrammar(t)
  {
    if AddressCore(t) { AddressCoreSound(t); }
    if AddressGrammar(t) { AddressCoreComplete(t); }
  }
}
