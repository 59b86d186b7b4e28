/** Lecture-year choices of the annual-document form (documents/forms.py):
    every lecture year from next year back to 1990, labelled "Y-(Y+1)", with
    the current lecture year preselected. The current lecture year is a
    parameter; its computation from the clock is not part of this model. */
module Documents {
  import opened Wrappers
  import opened Text

  datatype Choice = Choice(year: int, caption: string)

  /** `"{}-{}".format(year, year + 1)` */
  function YearLabel(year: nat): string {
    NatToString(year) + "-" + NatToString(year + 1)
  }

  /** Reads a label back into its two years. */
  function ParseYearLabel(text: string): Option<(nat, nat)> {
    var i := DashIndex(text, 0);
    if i < |text| && AllDigits(text[..i]) && AllDigits(text[i + 1..]) then
      Some((ParseNat(text[..i]), ParseNat(text[i + 1..])))
    else None
  }

  function DashIndex(s: string, i: nat): (j: nat)
    requires i <= |s|
    ensures i <= j <= |s|
    ensures j < |s| ==> s[j] == '-'
    ensures forall m :: i <= m < j ==> s[m] != '-'
    decreases |s| - i
  {
    if i == |s| || s[i] == '-' then i else DashIndex(s, i + 1)
  }

  lemma {:induction false} DashIndexAt(s: string, i: nat, j: nat)
    requires i <= j < |s| && s[j] == '-'
    requires forall m :: i <= m < j ==> s[m] != '-'
    ensures DashIndex(s, i) == j
    decreases j - i
  {
    if i < j {
      DashIndexAt(s, i + 1, j);
    }
  }

  /** Round trip: a label names exactly its year and the following one. */
  lemma YearLabelRoundTrip(year: nat)
    ensures ParseYearLabel(YearLabel(year)) == Some((year, year + 1))
  {
    var a := NatToString(year);
    var b := NatToString(year + 1);
    var text := YearLabel(year);
    assert text == a + "-" + b;
    assert text[..|a|] == a;
    assert text[|a| + 1..] == b;
    DashIndexAt(text, 0, |a|);
    ParseNatToString(year);
    ParseNatToString(year + 1);
  }

  /** Number of choices: `len(range(current + 1, 1989, -1))`. */
  function ChoiceCount(current: int): nat {
    if current + 1 > 1989 then current + 1 - 1989 else 0
  }

  /** The `count` years counting down from `top`, each with its label. */
  function ChoicesFrom(top: int, count: nat): (choices: seq<Choice>)
    requires count == 0 || top + 1 >= count
    ensures |choices| == count
    ensures forall i :: 0 <= i < count ==> choices[i].year == top - i
    ensures forall i :: 0 <= i < count ==> choices[i].caption == YearLabel(choices[i].year)
  {
    if count == 0 then [] else [Choice(top, YearLabel(top))] + ChoicesFrom(top - 1, count - 1)
  }

  /** `year_choices()`: `range(current + 1, 1989, -1)`, each year paired
      with its label. */
  function YearChoices(current: int): (choices: seq<Choice>)
    ensures |choices| == (if current >= 1989 then current - 1988 else 0)
    ensures |choices| > 0 ==> choices[0].year == current + 1 && choices[|choices| - 1].year == 1990
    ensures forall i :: 0 <= i < |choices| - 1 ==> choices[i + 1].year == choices[i].year - 1
    ensures forall i :: 0 <= i < |choices| ==>
              choices[i].year >= 1990 && choices[i].caption == YearLabel(choices[i].year)
  {
    ChoicesFrom(current + 1, ChoiceCount(current))
  }

  /** `current_year()`, the initial value of the field. */
  function InitialYear(current: int): int {
    current
  }

  /** The preselected year is one of the choices exactly when the current
      lecture year is 1990 or later. */
  lemma InitialYearOffered(current: int)
    ensures (exists i :: 0 <= i < |YearChoices(current)| && YearChoices(current)[i].year == InitialYear(current))
        <==> current >= 1990
  {
    var choices := YearChoices(current);
    if current >= 1990 {
      assert choices[1].year == current;
    }
  }
}
