/** Partner bookkeeping (partners/models.py): saving a partner keeps at most
    one main partner, and a vacancy shows its partner's name and logo when
    it has a partner. The partner table is a map from primary key to row. */
module Partners {
  import opened Wrappers

  datatype Partner = Partner(
    name: string,
    slug: string,
    isActive: bool,
    isMainPartner: bool,
    logo: string)

  /** `Partner.objects.get(is_main_partner=True)` found more than one row;
      `_reset_main_partner` does not catch this. */
  datatype SaveError = MultipleMainPartners

  type PartnerTable = map<nat, Partner>

  function MainPartners(db: PartnerTable): set<nat> {
    set k | k in db && db[k].isMainPartner
  }

  predicate AtMostOneMain(db: PartnerTable) {
    |MainPartners(db)| <= 1
  }

  /** `_reset_main_partner` for the partner with key `id`: with no main
      partner nothing happens (the lookup failure is swallowed); with one
      main partner other than this one, that partner is demoted and saved;
      with several, the lookup raises. */
  function ResetMainPartner(db: PartnerTable, id: nat): (r: Result<PartnerTable, SaveError>)
    ensures r.Failure? <==> |MainPartners(db)| > 1
    ensures |MainPartners(db)| == 0 ==> r == Success(db)
    ensures r.Success? ==> r.value.Keys == db.Keys && MainPartners(r.value) == MainPartners(db) * {id}
    ensures r.Success? ==> forall k :: k in db ==> r.value[k].(isMainPartner := db[k].isMainPartner) == db[k]
  {
    var mains := MainPartners(db);
    if |mains| == 0 then Success(db)
    else if |mains| > 1 then Failure(MultipleMainPartners)
    else
      var reset := map k | k in db :: if k in mains && k != id then db[k].(isMainPartner := false) else db[k];
      assert MainPartners(reset) == mains * {id};
      Success(reset)
  }

  /** `Partner.save` for the row with key `id` (a fresh key for a new
      partner): a main partner first resets the current main partner. */
  function Save(db: PartnerTable, id: nat, p: Partner): (r: Result<PartnerTable, SaveError>)
    ensures r.Failure? <==> p.isMainPartner && |MainPartners(db)| > 1
    ensures r.Success? ==> r.value.Keys == db.Keys + {id} && r.value[id] == p
    ensures r.Success? && p.isMainPartner ==> MainPartners(r.value) == {id}
    ensures !p.isMainPartner ==> r == Success(db[id := p])
    ensures |MainPartners(db)| == 0 ==> r == Success(db[id := p])
  {
    if p.isMainPartner then
      var reset :- ResetMainPartner(db, id);
      var saved := reset[id := p];
      MainAfterStore(reset, id, p);
      Success(saved)
    else
      Success(db[id := p])
  }

  /** Storing a main partner in a table whose only possible main partner
      is its own row leaves it the one main partner. */
  lemma MainAfterStore(db: PartnerTable, id: nat, p: Partner)
    requires MainPartners(db) <= {id} && p.isMainPartner
    ensures MainPartners(db[id := p]) == {id}
  {
  }

  lemma SingleMain(db: PartnerTable, id: nat)
    requires |MainPartners(db)| <= 1
    ensures ResetMainPartner(db, id).Success?
    ensures forall k :: k in ResetMainPartner(db, id).value && k != id ==>
              !ResetMainPartner(db, id).value[k].isMainPartner
  {
    var mains := MainPartners(db);
    if |mains| == 1 {
      var c :| c in mains;
      forall k | k in mains ensures k == c {
        if k != c {
          SubsetCard({k, c}, mains);
        }
      }
    }
    var r := ResetMainPartner(db, id).value;
    forall k | k in r && k != id
      ensures !r[k].isMainPartner
    {
      assert k in mains <==> db[k].isMainPartner;
    }
  }

  /** Saving keeps the "at most one main partner" invariant. */
  lemma SavePreservesAtMostOneMain(db: PartnerTable, id: nat, p: Partner)
    requires AtMostOneMain(db)
    ensures Save(db, id, p).Success?
    ensures AtMostOneMain(Save(db, id, p).value)
  {
    var r := Save(db, id, p).value;
    if !p.isMainPartner {
      assert MainPartners(r) <= MainPartners(db) + {id} - {id};
      assert MainPartners(r) <= MainPartners(db);
      SubsetCard(MainPartners(r), MainPartners(db));
    }
  }

  lemma SubsetCard(a: set<nat>, b: set<nat>)
    requires a <= b
    ensures |a| <= |b|
  {
    assert b == a + (b - a);
  }

  /** Saving a non-main partner changes no other partner. */
  lemma SaveNonMainLeavesOthers(db: PartnerTable, id: nat, p: Partner, k: nat)
    requires !p.isMainPartner && k in db && k != id
    ensures Save(db, id, p).Success? && Save(db, id, p).value[k] == db[k]
  {
  }

  /** Saving a main partner demotes the previous main partner and changes
      nothing else about any other partner. */
  lemma SaveMainDemotesOnly(db: PartnerTable, id: nat, p: Partner, k: nat)
    requires AtMostOneMain(db) && p.isMainPartner && k in db && k != id
    ensures Save(db, id, p).Success?
    ensures Save(db, id, p).value[k] == db[k].(isMainPartner := false)
  {
    SingleMain(db, id);
  }

  /** A sequence of saves, as `(key, partner)` pairs, from a table with at
      most one main partner never fails and keeps the invariant. */
  function SaveAll(db: PartnerTable, saves: seq<(nat, Partner)>): Result<PartnerTable, SaveError>
    decreases |saves|
  {
    if saves == [] then Success(db)
    else
      var next :- Save(db, saves[0].0, saves[0].1);
      SaveAll(next, saves[1..])
  }

  lemma {:induction false} SaveAllPreservesAtMostOneMain(db: PartnerTable, saves: seq<(nat, Partner)>)
    requires AtMostOneMain(db)
    ensures SaveAll(db, saves).Success? && AtMostOneMain(SaveAll(db, saves).value)
    decreases |saves|
  {
    if saves != [] {
      SavePreservesAtMostOneMain(db, saves[0].0, saves[0].1);
      SaveAllPreservesAtMostOneMain(Save(db, saves[0].0, saves[0].1).value, saves[1..]);
    }
  }

  // -----------------------------------------------------------------------
  // Vacancy

  /** A vacancy either links a partner or names a company itself; the
      company logo is optional. */
  datatype Vacancy = Vacancy(
    title: string,
    partner: Option<Partner>,
    companyName: string,
    companyLogo: Option<string>)

  function CompanyName(v: Vacancy): (name: string)
    ensures v.partner.Some? ==> name == v.partner.value.name
    ensures v.partner.None? ==> name == v.companyName
  {
    if v.partner.Some? then v.partner.value.name else v.companyName
  }

  function CompanyLogo(v: Vacancy): (logo: Option<string>)
    ensures v.partner.Some? ==> logo == Some(v.partner.value.logo)
    ensures v.partner.None? ==> logo == v.companyLogo
  {
    if v.partner.Some? then Some(v.partner.value.logo) else v.companyLogo
  }

  /** `str(vacancy)`: the company name, " - " and the title. */
  function VacancyString(v: Vacancy): (s: string)
    ensures |s| == |CompanyName(v)| + 3 + |v.title|
    ensures s[..|CompanyName(v)|] == CompanyName(v)
    ensures s[|CompanyName(v)|..|CompanyName(v)| + 3] == " - "
    ensures s[|CompanyName(v)| + 3..] == v.title
  {
    CompanyName(v) + " - " + v.title
  }

  /** With a partner linked, the vacancy's own company name and logo are
      not used: changing them changes neither what is shown nor the
      vacancy's string. */
  lemma PartnerOverridesCompany(v: Vacancy, name: string, logo: Option<string>)
    requires v.partner.Some?
    ensures CompanyName(v.(companyName := name, companyLogo := logo)) == CompanyName(v)
    ensures CompanyLogo(v.(companyName := name, companyLogo := logo)) == CompanyLogo(v)
    ensures VacancyString(v.(companyName := name, companyLogo := logo)) == VacancyString(v)
  {
  }
}
