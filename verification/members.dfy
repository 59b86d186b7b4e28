/** The member directory (members/views.py): the lecture-year range and
    search keywords read from the request, the selection of members a
    directory filter shows, the pagination window and the membership label
    on a profile page. Memberships and members are in-memory sequences;
    dates are integer day numbers. */
module Members {
  import opened Wrappers
  import opened Text
  import Seqs

  // -----------------------------------------------------------------------
  // MembersIndex.setup

  /** `list(reversed(range(current - 5, current + 1)))`: the six lecture
      years shown as cohort filters, newest first. */
  function YearRange(current: int): (years: seq<int>)
    ensures |years| == 6
    ensures forall i :: 0 <= i < 6 ==> years[i] == current - i
    ensures years[0] == current && years[5] == current - 5
    ensures forall i, j :: 0 <= i < j < 6 ==> years[i] > years[j]
  {
    Seqs.Reverse(Seqs.Range(current - 5, current + 1))
  }

  /** `request.GET.get('keywords', '').split() or None`: the whitespace
      separated words of the query, or null when there are none. */
  function Keywords(query: string): (kw: Option<seq<string>>)
    ensures kw.None? <==> forall i :: 0 <= i < |query| ==> IsSpace(query[i])
    ensures kw.Some? ==> |kw.value| > 0 && Concat(kw.value) == Squeeze(query)
    ensures kw.Some? ==> forall i :: 0 <= i < |kw.value| ==> |kw.value[i]| > 0 && NoSpace(kw.value[i])
  {
    SplitEmptyIff(query);
    SplitKeepsAllNonSpace(query);
    var words := Split(query);
    if words == [] then None else Some(words)
  }

  /** A query of one word searches for that word. */
  lemma KeywordsOfWord(w: string)
    requires |w| > 0 && NoSpace(w)
    ensures Keywords(w) == Some([w])
  {
    SplitWord(w);
  }

  /** Whitespace between two parts of a query separates their keywords:
      the keywords of `a + ws + b` are those of `a` followed by those of
      `b`, and there are none only when neither part has any. */
  lemma KeywordsAround(a: string, ws: string, b: string)
    requires |ws| > 0 && AllSpace(ws)
    ensures Keywords(a + ws + b) ==
              if Keywords(a).None? then Keywords(b)
              else if Keywords(b).None? then Keywords(a)
              else Some(Keywords(a).value + Keywords(b).value)
  {
    SplitAround(a, ws, b);
    var sa, sb := Split(a), Split(b);
    assert Keywords(a) == if sa == [] then None else Some(sa);
    assert Keywords(b) == if sb == [] then None else Some(sb);
    assert Keywords(a + ws + b) == if sa + sb == [] then None else Some(sa + sb);
    if sa == [] { assert sa + sb == sb; }
    if sb == [] { assert sa + sb == sa; }
  }

  // -----------------------------------------------------------------------
  // MembersIndex.get_queryset

  datatype MembershipType = MemberType | Benefactor | Honorary

  /** A membership of user `user`; `until` is null for an open-ended one. */
  datatype Membership = Membership(user: nat, kind: MembershipType, until: Option<int>)

  /** A member with the profile fields the directory reads. */
  datatype Member = Member(
    id: nat,
    firstName: string,
    lastName: string,
    username: string,
    nickname: string,
    displayNamePreference: string,
    startingYear: Option<int>)

  /** The directory filter taken from the URL. */
  datatype Filter = AllCurrent | Cohort(year: nat) | Older | Former | Benefactors | HonoraryOnly

  /** The URL's `filter` argument: a non-empty string of digits is a
      cohort; the four names select their filter; anything else, the empty
      string and a missing argument show all current members. */
  function ParseFilter(arg: Option<string>): (f: Filter)
    ensures f.Cohort? <==> arg.Some? && |arg.value| > 0 && AllDigits(arg.value)
    ensures f.Cohort? ==> f.year == ParseNat(arg.value)
    ensures arg == Some("older") <==> f == Older
    ensures arg == Some("former") <==> f == Former
    ensures arg == Some("benefactors") <==> f == Benefactors
    ensures arg == Some("honorary") <==> f == HonoraryOnly
    ensures f == AllCurrent <==>
              || arg.None?
              || (!(|arg.value| > 0 && AllDigits(arg.value))
                  && arg.value !in {"older", "former", "benefactors", "honorary"})
  {
    if arg.None? then AllCurrent
    else if |arg.value| > 0 && AllDigits(arg.value) then Cohort(ParseNat(arg.value))
    else if arg.value == "older" then Older
    else if arg.value == "former" then Former
    else if arg.value == "benefactors" then Benefactors
    else if arg.value == "honorary" then HonoraryOnly
    else AllCurrent
  }

  /** The cohort link for a starting year selects that year. */
  lemma ParseCohortLink(year: nat)
    ensures ParseFilter(Some(NatToString(year))) == Cohort(year)
  {
    ParseNatToString(year);
  }

  /** A condition on memberships, built the way the view combines `Q`
      objects. */
  datatype MembershipQuery =
    | MCurrent                      // until > now or until is null
    | MKind(kind: MembershipType)
    | MAll
    | MAnd(ml: MembershipQuery, mr: MembershipQuery)
    | MOr(ml: MembershipQuery, mr: MembershipQuery)

  /** A condition on members. `UIn(q)` is `pk__in` the users of the
      memberships that satisfy `q`. */
  datatype MemberQuery =
    | UHasId
    | UStartingYear(year: int)
    | UStartingYearBelow(bound: int)
    | UKeyword(key: string)
    | UIn(memberships: MembershipQuery)
    | UNot(q: MemberQuery)
    | UAnd(l: MemberQuery, r: MemberQuery)
    | UOr(l: MemberQuery, r: MemberQuery)

  predicate IsCurrent(ms: Membership, today: int) {
    ms.until.None? || ms.until.value > today
  }

  predicate EvalMembership(q: MembershipQuery, ms: Membership, today: int) {
    match q
    case MCurrent => IsCurrent(ms, today)
    case MKind(k) => ms.kind == k
    case MAll => true
    case MAnd(a, b) => EvalMembership(a, ms, today) && EvalMembership(b, ms, today)
    case MOr(a, b) => EvalMembership(a, ms, today) || EvalMembership(b, ms, today)
  }

  /** One search keyword matches a member when it occurs in the nickname of
      a member who displays the nickname, or in the first name, last name
      or username. */
  predicate KeywordMatches(m: Member, key: string) {
    || (Contains(m.nickname, key) && Contains(m.displayNamePreference, "nick"))
    || Contains(m.firstName, key)
    || Contains(m.lastName, key)
    || Contains(m.username, key)
  }

  predicate EvalMember(q: MemberQuery, m: Member, memberships: seq<Membership>, today: int) {
    match q
    case UHasId => true
    case UStartingYear(y) => m.startingYear == Some(y)
    case UStartingYearBelow(b) => m.startingYear.Some? && m.startingYear.value < b
    case UKeyword(k) => KeywordMatches(m, k)
    case UIn(mq) =>
      exists i :: 0 <= i < |memberships| && memberships[i].user == m.id
                  && EvalMembership(mq, memberships[i], today)
    case UNot(a) => !EvalMember(a, m, memberships, today)
    case UAnd(a, b) => EvalMember(a, m, memberships, today) && EvalMember(b, m, memberships, today)
    case UOr(a, b) => EvalMember(a, m, memberships, today) || EvalMember(b, m, memberships, today)
  }

  /** `for key in keywords: members_query &= <key matches>`. */
  function AddKeywords(q: MemberQuery, keys: seq<string>): MemberQuery
    decreases |keys|
  {
    if keys == [] then q else AddKeywords(UAnd(q, UKeyword(keys[0])), keys[1..])
  }

  const MemberOrHonorary: MembershipQuery := MOr(MKind(MemberType), MKind(Honorary))

  /** The membership query after the filter's branch of `get_queryset`. */
  function FilterMemberships(filter: Filter): (q: MembershipQuery)
    ensures filter != Former ==> forall ms: Membership, today: int ::
              EvalMembership(q, ms, today) <==> IsCurrent(ms, today) && ms.kind in Kinds(filter)
    ensures filter == Former ==> forall ms: Membership, today: int ::
              EvalMembership(q, ms, today) <==> IsCurrent(ms, today) && ms.kind in {MemberType, Honorary}
  {
    match filter
    case Cohort(_) => MAnd(MCurrent, MKind(MemberType))
    case Older => MAnd(MCurrent, MKind(MemberType))
    case Former => KindCases(); MAnd(MCurrent, MemberOrHonorary)
    case Benefactors => MAnd(MCurrent, MKind(Benefactor))
    case HonoraryOnly => MAnd(MCurrent, MKind(Honorary))
    case AllCurrent => KindCases(); MCurrent
  }

  /** Every membership has one of the three types, and `MemberOrHonorary`
      tests for two of them. */
  lemma KindCases()
    ensures forall ms: Membership :: ms.kind in {MemberType, Benefactor, Honorary}
    ensures forall ms: Membership, today: int ::
              EvalMembership(MemberOrHonorary, ms, today) <==> ms.kind in {MemberType, Honorary}
  {
    forall ms: Membership ensures ms.kind in {MemberType, Benefactor, Honorary} {
      match ms.kind
      case MemberType =>
      case Benefactor =>
      case Honorary =>
    }
    forall ms: Membership, today: int
      ensures EvalMembership(MemberOrHonorary, ms, today) <==> ms.kind in {MemberType, Honorary}
    {
      match ms.kind
      case MemberType =>
      case Benefactor =>
      case Honorary =>
    }
  }

  /** The member query after the filter's branch of `get_queryset`; the
      `older` bound is the last (oldest) year of the year range. */
  function FilterMembers(filter: Filter, lectureYear: int): (q: MemberQuery)
    ensures filter != Former ==> forall m: Member, memberships: seq<Membership>, today: int ::
              EvalMember(q, m, memberships, today) <==> ProfileCondition(filter, m, lectureYear)
    ensures filter == Former ==> forall m: Member, memberships: seq<Membership>, today: int ::
              EvalMember(q, m, memberships, today) <==> !HoldsCurrent(m, memberships, today, {MemberType, Honorary})
  {
    match filter
    case Cohort(y) => UAnd(UHasId, UStartingYear(y))
    case Older =>
      var years := YearRange(lectureYear);
      UAnd(UHasId, UStartingYearBelow(years[|years| - 1]))
    case Former =>
      InQueryAll(FilterMemberships(Former), {MemberType, Honorary}, true);
      UAnd(UHasId, UNot(UIn(FilterMemberships(Former))))
    case _ => UHasId
  }

  /** The member query `get_queryset` builds for a filter, the keywords and
      the current lecture year: the filter's conditions, one conjunct per
      keyword, and finally the membership condition (for `former`: once a
      member or honorary member, or never any membership). */
  function BuildQuery(filter: Filter, keywords: Option<seq<string>>, lectureYear: int): (q: MemberQuery)
    ensures filter != Former ==> forall m: Member, memberships: seq<Membership>, today: int ::
              EvalMember(q, m, memberships, today) <==>
                && MatchesAll(m, keywords)
                && ProfileCondition(filter, m, lectureYear)
                && HoldsCurrent(m, memberships, today, Kinds(filter))
    ensures filter == Former ==> forall m: Member, memberships: seq<Membership>, today: int ::
              EvalMember(q, m, memberships, today) <==>
                && MatchesAll(m, keywords)
                && !HoldsCurrent(m, memberships, today, {MemberType, Honorary})
                && (HeldEver(m, memberships, {MemberType, Honorary}) || HasNoMembership(m, memberships))
  {
    if filter == Former then
      FormerQuery(keywords, lectureYear);
      UAnd(Searched(Former, keywords, lectureYear), UOr(UIn(MemberOrHonorary), UNot(UIn(MAll))))
    else
      CurrentQuery(filter, keywords, lectureYear);
      UAnd(Searched(filter, keywords, lectureYear), UIn(FilterMemberships(filter)))
  }

  /** The filter's member query with one conjunct added per keyword. */
  function Searched(filter: Filter, keywords: Option<seq<string>>, lectureYear: int): MemberQuery {
    var members := FilterMembers(filter, lectureYear);
    if keywords.Some? then AddKeywords(members, keywords.value) else members
  }

  /** `InQuerySemantics` for every member, membership list and day. */
  lemma InQueryAll(mq: MembershipQuery, kinds: set<MembershipType>, current: bool)
    requires forall ms: Membership, today: int :: EvalMembership(mq, ms, today) <==>
               (ms.kind in kinds && (current ==> IsCurrent(ms, today)))
    ensures current ==> forall m: Member, memberships: seq<Membership>, today: int ::
              EvalMember(UIn(mq), m, memberships, today) <==> HoldsCurrent(m, memberships, today, kinds)
    ensures !current ==> forall m: Member, memberships: seq<Membership>, today: int ::
              EvalMember(UIn(mq), m, memberships, today) <==> HeldEver(m, memberships, kinds)
  {
    forall m: Member, memberships: seq<Membership>, today: int
      ensures current ==> (EvalMember(UIn(mq), m, memberships, today) <==> HoldsCurrent(m, memberships, today, kinds))
      ensures !current ==> (EvalMember(UIn(mq), m, memberships, today) <==> HeldEver(m, memberships, kinds))
    {
      InQuerySemantics(mq, m, memberships, today, kinds, current);
    }
  }

  /** The members the directory lists (their order by first name is not
      modelled): those that match every keyword and, for every filter but
      `former`, the filter's profile condition and a current membership of
      one of its types; for `former`, no current member or honorary
      membership and either a past one or none at all. */
  function DirectoryMembers(members: seq<Member>, memberships: seq<Membership>, filter: Filter,
                            keywords: Option<seq<string>>, lectureYear: int, today: int): (listed: set<Member>)
    ensures filter != Former ==> forall m: Member :: m in listed <==>
              && m in members
              && MatchesAll(m, keywords)
              && ProfileCondition(filter, m, lectureYear)
              && HoldsCurrent(m, memberships, today, Kinds(filter))
    ensures filter == Former ==> forall m: Member :: m in listed <==>
              && m in members
              && MatchesAll(m, keywords)
              && !HoldsCurrent(m, memberships, today, {MemberType, Honorary})
              && (HeldEver(m, memberships, {MemberType, Honorary}) || HasNoMembership(m, memberships))
  {
    var q := BuildQuery(filter, keywords, lectureYear);
    set m | m in members && EvalMember(q, m, memberships, today)
  }

  // Direct statement of what each filter selects.

  predicate HoldsCurrent(m: Member, memberships: seq<Membership>, today: int, kinds: set<MembershipType>) {
    exists i :: 0 <= i < |memberships| && memberships[i].user == m.id
                && IsCurrent(memberships[i], today) && memberships[i].kind in kinds
  }

  predicate HeldEver(m: Member, memberships: seq<Membership>, kinds: set<MembershipType>) {
    exists i :: 0 <= i < |memberships| && memberships[i].user == m.id && memberships[i].kind in kinds
  }

  predicate HasNoMembership(m: Member, memberships: seq<Membership>) {
    forall i :: 0 <= i < |memberships| ==> memberships[i].user != m.id
  }

  predicate MatchesAll(m: Member, keywords: Option<seq<string>>) {
    keywords.Some? ==> forall i :: 0 <= i < |keywords.value| ==> KeywordMatches(m, keywords.value[i])
  }

  /** The membership types that qualify a member under a filter. */
  function Kinds(filter: Filter): set<MembershipType> {
    match filter
    case Cohort(_) => {MemberType}
    case Older => {MemberType}
    case Benefactors => {Benefactor}
    case HonoraryOnly => {Honorary}
    case _ => {MemberType, Benefactor, Honorary}
  }

  /** The profile condition of a filter: the cohort's starting year, or a
      starting year before the oldest year of the year range. */
  predicate ProfileCondition(filter: Filter, m: Member, lectureYear: int) {
    match filter
    case Cohort(y) => m.startingYear == Some(y)
    case Older => m.startingYear.Some? && m.startingYear.value < lectureYear - 5
    case _ => true
  }

  lemma {:induction false} AddKeywordsMeansAll(q: MemberQuery, keys: seq<string>, m: Member,
                                              memberships: seq<Membership>, today: int)
    ensures EvalMember(AddKeywords(q, keys), m, memberships, today)
        <==> EvalMember(q, m, memberships, today) && MatchesAll(m, Some(keys))
    decreases |keys|
  {
    if keys != [] {
      AddKeywordsMeansAll(UAnd(q, UKeyword(keys[0])), keys[1..], m, memberships, today);
      assert forall i :: 0 <= i < |keys[1..]| ==> keys[1..][i] == keys[i + 1];
    }
  }

  lemma SearchedSemantics(filter: Filter, keywords: Option<seq<string>>, lectureYear: int,
                          m: Member, memberships: seq<Membership>, today: int)
    ensures EvalMember(Searched(filter, keywords, lectureYear), m, memberships, today)
        <==> EvalMember(FilterMembers(filter, lectureYear), m, memberships, today) && MatchesAll(m, keywords)
  {
    if keywords.Some? {
      AddKeywordsMeansAll(FilterMembers(filter, lectureYear), keywords.value, m, memberships, today);
    }
  }

  /** The query of every filter but `former` selects exactly the members
      that match every keyword, satisfy the filter's profile condition and
      hold a current membership of one of the filter's types. */
  lemma CurrentQuery(filter: Filter, keywords: Option<seq<string>>, lectureYear: int)
    requires filter != Former
    ensures forall m: Member, memberships: seq<Membership>, today: int ::
              EvalMember(UAnd(Searched(filter, keywords, lectureYear), UIn(FilterMemberships(filter))),
                         m, memberships, today)
              <==> && MatchesAll(m, keywords)
                   && ProfileCondition(filter, m, lectureYear)
                   && HoldsCurrent(m, memberships, today, Kinds(filter))
  {
    forall m: Member, memberships: seq<Membership>, today: int
      ensures EvalMember(UAnd(Searched(filter, keywords, lectureYear), UIn(FilterMemberships(filter))),
                         m, memberships, today)
              <==> && MatchesAll(m, keywords)
                   && ProfileCondition(filter, m, lectureYear)
                   && HoldsCurrent(m, memberships, today, Kinds(filter))
    {
      SearchedSemantics(filter, keywords, lectureYear, m, memberships, today);
      InQuerySemantics(FilterMemberships(filter), m, memberships, today, Kinds(filter), true);
    }
  }

  /** The `former` query selects exactly the members that match every
      keyword, hold no current member or honorary membership, and either
      held one in the past or have no membership at all. */
  lemma FormerQuery(keywords: Option<seq<string>>, lectureYear: int)
    ensures forall m: Member, memberships: seq<Membership>, today: int ::
              EvalMember(UAnd(Searched(Former, keywords, lectureYear), UOr(UIn(MemberOrHonorary), UNot(UIn(MAll)))),
                         m, memberships, today)
              <==> && MatchesAll(m, keywords)
                   && !HoldsCurrent(m, memberships, today, {MemberType, Honorary})
                   && (HeldEver(m, memberships, {MemberType, Honorary}) || HasNoMembership(m, memberships))
  {
    KindCases();
    forall m: Member, memberships: seq<Membership>, today: int
      ensures EvalMember(UAnd(Searched(Former, keywords, lectureYear), UOr(UIn(MemberOrHonorary), UNot(UIn(MAll)))),
                         m, memberships, today)
              <==> && MatchesAll(m, keywords)
                   && !HoldsCurrent(m, memberships, today, {MemberType, Honorary})
                   && (HeldEver(m, memberships, {MemberType, Honorary}) || HasNoMembership(m, memberships))
    {
      SearchedSemantics(Former, keywords, lectureYear, m, memberships, today);
      InQuerySemantics(MemberOrHonorary, m, memberships, today, {MemberType, Honorary}, false);
      if !HasNoMembership(m, memberships) {
        var i :| 0 <= i < |memberships| && memberships[i].user == m.id;
        assert EvalMembership(MAll, memberships[i], today);
      }
      assert EvalMember(FilterMembers(Former, lectureYear), m, memberships, today)
         <==> !HoldsCurrent(m, memberships, today, {MemberType, Honorary});
      assert EvalMember(UIn(MAll), m, memberships, today) <==> !HasNoMembership(m, memberships);
      var tail := UOr(UIn(MemberOrHonorary), UNot(UIn(MAll)));
      assert EvalMember(tail, m, memberships, today)
         <==> EvalMember(UIn(MemberOrHonorary), m, memberships, today) || !EvalMember(UIn(MAll), m, memberships, today);
    }
  }

  /** Every filter but `former` lists exactly the members that match every
      keyword, satisfy the filter's profile condition and hold a current
      membership of one of the filter's types. */
  lemma CurrentFilterSemantics(members: seq<Member>, memberships: seq<Membership>, filter: Filter,
                               keywords: Option<seq<string>>, lectureYear: int, today: int, m: Member)
    requires filter != Former
    ensures m in DirectoryMembers(members, memberships, filter, keywords, lectureYear, today)
        <==> && m in members
             && MatchesAll(m, keywords)
             && ProfileCondition(filter, m, lectureYear)
             && HoldsCurrent(m, memberships, today, Kinds(filter))
  {
  }

  /** The `former` filter lists exactly the members that match every
      keyword, hold no current member or honorary membership, and either
      held one in the past or have no membership at all. */
  lemma FormerFilterSemantics(members: seq<Member>, memberships: seq<Membership>,
                              keywords: Option<seq<string>>, lectureYear: int, today: int, m: Member)
    ensures m in DirectoryMembers(members, memberships, Former, keywords, lectureYear, today)
        <==> && m in members
             && MatchesAll(m, keywords)
             && !HoldsCurrent(m, memberships, today, {MemberType, Honorary})
             && (HeldEver(m, memberships, {MemberType, Honorary}) || HasNoMembership(m, memberships))
  {
  }

  /** `pk__in` a membership query that tests the type against `kinds` (and,
      when `current`, the end date) is holding such a membership. */
  lemma InQuerySemantics(mq: MembershipQuery, m: Member, memberships: seq<Membership>, today: int,
                         kinds: set<MembershipType>, current: bool)
    requires forall ms: Membership :: EvalMembership(mq, ms, today) <==>
               (ms.kind in kinds && (current ==> IsCurrent(ms, today)))
    ensures current ==> (EvalMember(UIn(mq), m, memberships, today) <==> HoldsCurrent(m, memberships, today, kinds))
    ensures !current ==> (EvalMember(UIn(mq), m, memberships, today) <==> HeldEver(m, memberships, kinds))
  {
    if EvalMember(UIn(mq), m, memberships, today) {
      var i :| 0 <= i < |memberships| && memberships[i].user == m.id
               && EvalMembership(mq, memberships[i], today);
    }
    if current && HoldsCurrent(m, memberships, today, kinds) {
      var i :| 0 <= i < |memberships| && memberships[i].user == m.id
               && IsCurrent(memberships[i], today) && memberships[i].kind in kinds;
      assert EvalMembership(mq, memberships[i], today);
    }
    if !current && HeldEver(m, memberships, kinds) {
      var i :| 0 <= i < |memberships| && memberships[i].user == m.id && memberships[i].kind in kinds;
      assert EvalMembership(mq, memberships[i], today);
    }
  }

  // -----------------------------------------------------------------------
  // MembersIndex.get_context_data

  /** The pagination window `range(start, stop)`: all pages when there are
      at most seven; otherwise pages 1-5 near the start, and elsewhere five
      consecutive pages ending at most three past the current page, pulled
      back from the end. The window never reaches the last page. */
  method PageRange(page: int, numPages: int) returns (start: int, stop: int)
    ensures numPages <= 7 ==> start == 1 && stop == numPages + 1
    ensures numPages > 7 && page <= 3 ==> start == 1 && stop == 6
    ensures numPages > 7 && page > 3 ==>
              && stop - start == 5
              && 1 <= start && stop <= numPages
              && stop == Seqs.Min(page + 3, numPages)
    ensures numPages > 7 && 1 <= page < numPages ==> start <= page < stop
    ensures numPages > 7 && page == numPages ==> !(start <= page < stop)
  {
    start, stop := 1, numPages + 1;
    if numPages > 7 {
      if page > 3 {
        var rangeEnd := numPages;
        if page + 3 <= numPages {
          rangeEnd := page + 3;
        }
        start, stop := page - 2, rangeEnd;
        while stop - start < 5
          invariant stop == rangeEnd
          invariant stop - start <= 5
          decreases 5 - (stop - start)
        {
          start := start - 1;
        }
      } else {
        start, stop := 1, 6;
      }
    }
  }

  // -----------------------------------------------------------------------
  // ProfileDetailView.get_context_data

  /** What the profile page asks of a member's membership history. */
  datatype MembershipHistory = MembershipHistory(
    current: Option<MembershipType>,
    hasBeenHonoraryMember: bool,
    hasBeenMember: bool,
    hasLatestMembership: bool)

  datatype TypeLabel = CurrentType(kind: MembershipType) | FormerHonorary | FormerMember | FormerBenefactor | UnknownHistory

  /** The membership label on a profile: the first that applies of the
      current membership's type, former honorary member, former member,
      former benefactor (any membership at all), and unknown history. */
  function MembershipLabel(h: MembershipHistory): (l: TypeLabel)
    ensures l.CurrentType? <==> h.current.Some?
    ensures l.CurrentType? ==> l.kind == h.current.value
    ensures l == FormerHonorary <==> h.current.None? && h.hasBeenHonoraryMember
    ensures l == FormerMember <==> h.current.None? && !h.hasBeenHonoraryMember && h.hasBeenMember
    ensures l == FormerBenefactor <==>
              h.current.None? && !h.hasBeenHonoraryMember && !h.hasBeenMember && h.hasLatestMembership
    ensures l == UnknownHistory <==>
              h.current.None? && !h.hasBeenHonoraryMember && !h.hasBeenMember && !h.hasLatestMembership
  {
    if h.current.Some? then CurrentType(h.current.value)
    else if h.hasBeenHonoraryMember then FormerHonorary
    else if h.hasBeenMember then FormerMember
    else if h.hasLatestMembership then FormerBenefactor
    else UnknownHistory
  }

  /** One line of the profile's label chain: the label it gives when its
      condition holds. */
  datatype LabelRule = LabelRule(applies: bool, gives: TypeLabel)

  /** The label of the first rule that applies, else `fallback`. */
  function FirstApplicable(rules: seq<LabelRule>, fallback: TypeLabel): TypeLabel {
    if rules == [] then fallback
    else if rules[0].applies then rules[0].gives
    else FirstApplicable(rules[1..], fallback)
  }

  /** The `if`/`elif` chain of the profile page as a list of rules. */
  function ProfileRules(h: MembershipHistory): seq<LabelRule> {
    [ LabelRule(h.current.Some?, CurrentType(if h.current.Some? then h.current.value else MemberType)),
      LabelRule(h.hasBeenHonoraryMember, FormerHonorary),
      LabelRule(h.hasBeenMember, FormerMember),
      LabelRule(h.hasLatestMembership, FormerBenefactor) ]
  }

  /** The label is the first rule of the chain that applies, with the
      unknown history as the default. */
  lemma MembershipLabelFirstApplicable(h: MembershipHistory)
    ensures MembershipLabel(h) == FirstApplicable(ProfileRules(h), UnknownHistory)
  {
    var r0 := ProfileRules(h);
    assert |r0| == 4;
    var r1, r2, r3 := r0[1..], r0[2..], r0[3..];
    assert r0[1..][1..] == r2 && r2[1..] == r3 && r3[1..] == [];
    assert FirstApplicable(r3[1..], UnknownHistory) == UnknownHistory;
    assert FirstApplicable(r3, UnknownHistory) == if r0[3].applies then r0[3].gives else UnknownHistory;
    assert FirstApplicable(r2, UnknownHistory) == if r0[2].applies then r0[2].gives else FirstApplicable(r3, UnknownHistory);
    assert FirstApplicable(r1, UnknownHistory) == if r0[1].applies then r0[1].gives else FirstApplicable(r2, UnknownHistory);
  }
}
