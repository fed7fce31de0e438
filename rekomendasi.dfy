/** routes/rekomendasi.js: the recommendation of majors from the user's
    grade average, the filtered catalog listing and the catalog search. Each
    handler is one query over the `jurusan` and `ptn` tables, so each is a
    function of those tables. */
module RekomendasiRoute {
  import opened Wrappers
  import opened Sql
  import opened Schema
  import opened NilaiRoute

  /** A major together with its university: a row of `jurusan j JOIN ptn p
      ON j.ptn_id = p.id`. */
  type Listing = (Jurusan, Ptn)

  function PtnOf(j: Jurusan, p: Ptn): bool { j.ptnId == p.id }

  function Catalog(jurusan: seq<Jurusan>, ptn: seq<Ptn>): seq<Listing>
  {
    Join(jurusan, ptn, PtnOf)
  }

  /** A filtered catalog holds each passing listing as often as the join. */
  lemma CatalogCount(jurusan: seq<Jurusan>, ptn: seq<Ptn>, p: Listing -> bool)
    ensures forall l :: multiset(Where(Catalog(jurusan, ptn), p))[l] ==
                        (if p(l) then JoinMultiplicity(jurusan, ptn, PtnOf, l) else 0)
  {
    forall l ensures multiset(Where(Catalog(jurusan, ptn), p))[l] ==
                     (if p(l) then JoinMultiplicity(jurusan, ptn, PtnOf, l) else 0)
    {
      JoinWhereCount(jurusan, ptn, PtnOf, p, l);
    }
  }

  /** `ORDER BY j.passing_grade DESC`. */
  const ByPassingGradeDesc: (Listing, Listing) -> bool :=
    (a: Listing, b: Listing) => a.0.passingGrade >= b.0.passingGrade

  lemma PassingGradeDescIsPreorder()
    ensures Total(ByPassingGradeDesc) && Transitive(ByPassingGradeDesc)
  {
  }

  // ------------------------------------------------------------- tiers

  /** The four labels of `kategori_rekomendasi`. */
  datatype Tier = Aman | Rekomendasi | Menantang | SangatMenantang

  function TierName(t: Tier): string
  {
    match t
    case Aman => "Aman"
    case Rekomendasi => "Rekomendasi"
    case Menantang => "Menantang"
    case SangatMenantang => "Sangat Menantang"
  }

  /** The CASE expression, whose branches are tried in order. */
  function TierOf(avg: real, passingGrade: real): Tier
  {
    if passingGrade <= avg then Aman
    else if passingGrade <= avg + 5.0 then Rekomendasi
    else if passingGrade <= avg + 10.0 then Menantang
    else SangatMenantang
  }

  /** First-match evaluation of the CASE splits the line into four bands
      with inclusive upper bounds. */
  lemma TierBands(avg: real, pg: real)
    ensures TierOf(avg, pg) == Aman <==> pg <= avg
    ensures TierOf(avg, pg) == Rekomendasi <==> avg < pg <= avg + 5.0
    ensures TierOf(avg, pg) == Menantang <==> avg + 5.0 < pg <= avg + 10.0
    ensures TierOf(avg, pg) == SangatMenantang <==> avg + 10.0 < pg
  {
  }

  /** Each label text names one tier, so the stats count each tier once. */
  lemma TierNameInjective(a: Tier, b: Tier)
    ensures TierName(a) == TierName(b) <==> a == b
  {
    if a != b {
      assert TierName(a)[0] != TierName(b)[0] || |TierName(a)| != |TierName(b)|;
    }
  }

  /** With an average of 80 the boundaries fall at 80, 85 and 90. */
  lemma TierBoundaryExamples()
    ensures TierOf(80.0, 80.0) == Aman
    ensures TierOf(80.0, 85.0) == Rekomendasi
    ensures TierOf(80.0, 90.0) == Menantang
    ensures TierOf(80.0, 95.0) == SangatMenantang
    ensures !InWindow(80.0, 96.0) && InWindow(80.0, 95.0)
  {
  }

  // --------------------------------------------------------- GET / (rank)

  /** `WHERE j.passing_grade <= ? + 15`. */
  predicate InWindow(avg: real, passingGrade: real) { passingGrade <= avg + 15.0 }

  /** `if (kelompok && kelompok !== 'all') query += ' AND j.kelompok = ?'`:
      a missing, empty or `'all'` group filter keeps every major. */
  predicate PassesGroup(kelompok: Option<string>, j: Jurusan)
  {
    match kelompok
    case None => true
    case Some(k) => k == "" || k == "all" || KelompokName(j.kelompok) == k
  }

  function Feasible(avg: real, kelompok: Option<string>): Listing -> bool
  {
    (l: Listing) => InWindow(avg, l.0.passingGrade) && PassesGroup(kelompok, l.0)
  }

  /** A row of the recommendation: the major, its university, its tier and
      `selisih`, the average minus the passing grade. */
  datatype Entry = Entry(jurusan: Jurusan, ptn: Ptn, tier: Tier, selisih: real)

  function EntryOf(avg: real, l: Listing): Entry
  {
    Entry(l.0, l.1, TierOf(avg, l.0.passingGrade), avg - l.0.passingGrade)
  }

  /** `e` is a row the recommendation query can produce. */
  predicate IsCandidate(jurusan: seq<Jurusan>, ptn: seq<Ptn>, avg: real, kelompok: Option<string>, e: Entry)
  {
    && e.jurusan in jurusan && e.ptn in ptn && PtnOf(e.jurusan, e.ptn)
    && InWindow(avg, e.jurusan.passingGrade) && PassesGroup(kelompok, e.jurusan)
    && e.tier == TierOf(avg, e.jurusan.passingGrade)
    && e.selisih == avg - e.jurusan.passingGrade
  }

  const EntryByPassingGradeDesc: (Entry, Entry) -> bool :=
    (a: Entry, b: Entry) => a.jurusan.passingGrade >= b.jurusan.passingGrade

  lemma EntryByPassingGradeDescIsPreorder()
    ensures Total(EntryByPassingGradeDesc) && Transitive(EntryByPassingGradeDesc)
  {
  }

  /** The rows of the recommendation query before ORDER BY and LIMIT. */
  function Candidates(jurusan: seq<Jurusan>, ptn: seq<Ptn>, avg: real, kelompok: Option<string>): (r: seq<Entry>)
    ensures forall e :: e in r <==> IsCandidate(jurusan, ptn, avg, kelompok, e)
    ensures forall e :: multiset(r)[e] ==
                        (if IsCandidate(jurusan, ptn, avg, kelompok, e)
                         then JoinMultiplicity(jurusan, ptn, PtnOf, (e.jurusan, e.ptn)) else 0)
  {
    var w := Where(Catalog(jurusan, ptn), Feasible(avg, kelompok));
    var r := Map(w, ToEntry(avg));
    assert forall e :: e in r ==> IsCandidate(jurusan, ptn, avg, kelompok, e) by {
      forall e | e in r ensures IsCandidate(jurusan, ptn, avg, kelompok, e) {
        var i :| 0 <= i < |r| && r[i] == e;
        assert w[i] in w;
      }
    }
    assert forall e :: IsCandidate(jurusan, ptn, avg, kelompok, e) ==> e in r by {
      forall e | IsCandidate(jurusan, ptn, avg, kelompok, e) ensures e in r {
        assert (e.jurusan, e.ptn) in w;
        var i :| 0 <= i < |w| && w[i] == (e.jurusan, e.ptn);
        assert r[i] == e;
      }
    }
    assert forall e :: multiset(r)[e] ==
                       (if IsCandidate(jurusan, ptn, avg, kelompok, e)
                        then JoinMultiplicity(jurusan, ptn, PtnOf, (e.jurusan, e.ptn)) else 0) by {
      forall e ensures multiset(r)[e] ==
                       (if IsCandidate(jurusan, ptn, avg, kelompok, e)
                        then JoinMultiplicity(jurusan, ptn, PtnOf, (e.jurusan, e.ptn)) else 0)
      {
        if IsCandidate(jurusan, ptn, avg, kelompok, e) {
          CandidateCount(jurusan, ptn, avg, kelompok, e);
        } else {
          assert e !in multiset(r);
        }
      }
    }
    r
  }

  function ToEntry(avg: real): Listing -> Entry { (l: Listing) => EntryOf(avg, l) }

  /** A reachable major occurs among the candidates as often as its row
      occurs in the catalog. */
  lemma CandidateCount(jurusan: seq<Jurusan>, ptn: seq<Ptn>, avg: real, kelompok: Option<string>, e: Entry)
    requires IsCandidate(jurusan, ptn, avg, kelompok, e)
    ensures multiset(Map(Where(Catalog(jurusan, ptn), Feasible(avg, kelompok)), ToEntry(avg)))[e]
         == JoinMultiplicity(jurusan, ptn, PtnOf, (e.jurusan, e.ptn))
  {
    var w := Where(Catalog(jurusan, ptn), Feasible(avg, kelompok));
    var l := (e.jurusan, e.ptn);
    assert ToEntry(avg)(l) == e;
    MapCount(w, ToEntry(avg), l);
    JoinWhereCount(jurusan, ptn, PtnOf, Feasible(avg, kelompok), l);
  }

  /** The counts of the four labels among the returned rows. */
  datatype Stats = Stats(aman: nat, rekomendasi: nat, menantang: nat, sangatMenantang: nat)

  function HasTier(t: Tier): Entry -> bool { (e: Entry) => TierName(e.tier) == TierName(t) }

  function CountTier(data: seq<Entry>, t: Tier): nat { |Where(data, HasTier(t))| }

  /** `recommendations.filter(r => r.kategori_rekomendasi === ...).length`
      for each label: since every row has exactly one label, the four
      counts add up to the number of rows. */
  function StatsOf(data: seq<Entry>): (s: Stats)
    ensures s.aman + s.rekomendasi + s.menantang + s.sangatMenantang == |data|
  {
    TierCountsSum(data);
    Stats(CountTier(data, Aman), CountTier(data, Rekomendasi), CountTier(data, Menantang), CountTier(data, SangatMenantang))
  }

  lemma {:induction false} TierCountsSum(data: seq<Entry>)
    ensures CountTier(data, Aman) + CountTier(data, Rekomendasi) + CountTier(data, Menantang)
          + CountTier(data, SangatMenantang) == |data|
  {
    if data != [] {
      TierCountsSum(data[1..]);
      var t := data[0].tier;
      TierNameInjective(t, Aman);
      TierNameInjective(t, Rekomendasi);
      TierNameInjective(t, Menantang);
      TierNameInjective(t, SangatMenantang);
    }
  }

  /** The response of `GET /`: `NoGrades` when the average is NULL or 0
      (the empty list with `userAverage: 0`), otherwise the ranked rows. */
  datatype Recommendation = NoGrades | Ranked(data: seq<Entry>, userAverage: real, stats: Stats)

  /** The most rows the recommendation returns. */
  const RecommendLimit: nat := 50

  /** `GET /`: the majors reachable from the user's average (`|| 0`), each
      labelled with its tier, highest passing grade first, at most 50. */
  function Recommend(nilai: seq<Nilai>, jurusan: seq<Jurusan>, ptn: seq<Ptn>, userId: int,
                     kelompok: Option<string>): (r: Recommendation)
    ensures r.NoGrades? <==> UserAverage(nilai, userId).None? || UserAverage(nilai, userId).value == 0.0
    ensures r.Ranked? ==>
      && r.userAverage == UserAverage(nilai, userId).value
      && MeanOf(r.userAverage, Scores(UserRows(nilai, userId)))
      && |r.data| == Min(RecommendLimit, |Candidates(jurusan, ptn, r.userAverage, kelompok)|)
      && SortedBy(r.data, EntryByPassingGradeDesc)
      && (forall e :: e in r.data ==> IsCandidate(jurusan, ptn, r.userAverage, kelompok, e))
      && (forall e :: IsCandidate(jurusan, ptn, r.userAverage, kelompok, e) && e !in r.data ==>
            |r.data| == RecommendLimit && forall d :: d in r.data ==> d.jurusan.passingGrade >= e.jurusan.passingGrade)
      && r.stats.aman + r.stats.rekomendasi + r.stats.menantang + r.stats.sangatMenantang == |r.data|
      && r.stats == Stats(CountTier(r.data, Aman), CountTier(r.data, Rekomendasi),
                          CountTier(r.data, Menantang), CountTier(r.data, SangatMenantang))
    ensures r.Ranked? ==> forall e :: multiset(r.data)[e] <= JoinMultiplicity(jurusan, ptn, PtnOf, (e.jurusan, e.ptn))
  {
    var avg := UserAverage(nilai, userId).GetOr(0.0);
    if avg == 0.0 then NoGrades
    else
      UserAverageSpec(nilai, userId);
      var data := Ranking(jurusan, ptn, avg, kelompok);
      Ranked(data, avg, StatsOf(data))
  }

  /** `ORDER BY j.passing_grade DESC LIMIT 50` over the candidates. */
  function Ranking(jurusan: seq<Jurusan>, ptn: seq<Ptn>, avg: real, kelompok: Option<string>): (data: seq<Entry>)
    ensures |data| == Min(RecommendLimit, |Candidates(jurusan, ptn, avg, kelompok)|)
    ensures SortedBy(data, EntryByPassingGradeDesc)
    ensures forall e :: e in data ==> IsCandidate(jurusan, ptn, avg, kelompok, e)
    ensures forall e :: IsCandidate(jurusan, ptn, avg, kelompok, e) && e !in data ==>
      |data| == RecommendLimit && forall d :: d in data ==> d.jurusan.passingGrade >= e.jurusan.passingGrade
    ensures forall e :: multiset(data)[e] <= JoinMultiplicity(jurusan, ptn, PtnOf, (e.jurusan, e.ptn))
  {
    var candidates := Candidates(jurusan, ptn, avg, kelompok);
    EntryByPassingGradeDescIsPreorder();
    TopN(candidates, EntryByPassingGradeDesc, RecommendLimit);
    Limit(SortBy(candidates, EntryByPassingGradeDesc), RecommendLimit)
  }

  /** A user with no grade gets no recommendation. */
  lemma NoGradesNoRecommendation(nilai: seq<Nilai>, jurusan: seq<Jurusan>, ptn: seq<Ptn>, userId: int,
                                 kelompok: Option<string>)
    requires forall n :: n in nilai ==> n.userId != userId
    ensures Recommend(nilai, jurusan, ptn, userId, kelompok) == NoGrades
  {
    UserAverageSpec(nilai, userId);
  }

  /** If fewer than the limit of majors are reachable, the recommendation
      lists every one of them. */
  lemma RecommendComplete(nilai: seq<Nilai>, jurusan: seq<Jurusan>, ptn: seq<Ptn>, userId: int,
                          kelompok: Option<string>, e: Entry)
    requires Recommend(nilai, jurusan, ptn, userId, kelompok).Ranked?
    requires IsCandidate(jurusan, ptn, Recommend(nilai, jurusan, ptn, userId, kelompok).userAverage, kelompok, e)
    requires |Candidates(jurusan, ptn, Recommend(nilai, jurusan, ptn, userId, kelompok).userAverage, kelompok)| < RecommendLimit
    ensures e in Recommend(nilai, jurusan, ptn, userId, kelompok).data
  {
  }

  /** The tier of a returned row and its `selisih` agree: Aman means the
      difference is at least 0, and the window bounds it below by -15. */
  lemma TierMatchesSelisih(jurusan: seq<Jurusan>, ptn: seq<Ptn>, avg: real, kelompok: Option<string>, e: Entry)
    requires IsCandidate(jurusan, ptn, avg, kelompok, e)
    ensures -15.0 <= e.selisih
    ensures e.tier == Aman <==> e.selisih >= 0.0
    ensures e.tier == Rekomendasi <==> -5.0 <= e.selisih < 0.0
    ensures e.tier == Menantang <==> -10.0 <= e.selisih < -5.0
    ensures e.tier == SangatMenantang <==> e.selisih < -10.0
  {
    TierBands(avg, e.jurusan.passingGrade);
  }

  // --------------------------------------------------------- GET /search

  /** `WHERE j.nama_jurusan LIKE '%q%' OR p.nama_ptn LIKE '%q%'`. */
  function Matching(q: string): Listing -> bool
  {
    (l: Listing) => LikeContains(l.0.namaJurusan, q) || LikeContains(l.1.namaPtn, q)
  }

  const SearchLimit: nat := 20

  /** `GET /search`: nothing for a missing or one-character query; otherwise
      the majors whose name or university name contains the query, highest
      passing grade first, at most 20. */
  function Search(jurusan: seq<Jurusan>, ptn: seq<Ptn>, q: Option<string>): (r: seq<Listing>)
    ensures q.None? || |q.value| < 2 ==> r == []
    ensures |r| <= SearchLimit
    ensures SortedBy(r, ByPassingGradeDesc)
    ensures forall l :: l in r ==> l in Catalog(jurusan, ptn) && Matching(q.value)(l)
    ensures q.Some? && |q.value| >= 2 ==> forall l :: l in Catalog(jurusan, ptn) && Matching(q.value)(l) && l !in r ==>
      |r| == SearchLimit && forall m :: m in r ==> m.0.passingGrade >= l.0.passingGrade
    ensures forall l :: multiset(r)[l] <= JoinMultiplicity(jurusan, ptn, PtnOf, l)
  {
    if q.None? || |q.value| < 2 then []
    else
      var w := Where(Catalog(jurusan, ptn), Matching(q.value));
      CatalogCount(jurusan, ptn, Matching(q.value));
      PassingGradeDescIsPreorder();
      TopN(w, ByPassingGradeDesc, SearchLimit);
      Limit(SortBy(w, ByPassingGradeDesc), SearchLimit)
  }

  /** The search ignores ASCII letter case in the query. */
  lemma SearchIgnoresCase(jurusan: seq<Jurusan>, ptn: seq<Ptn>, q: string)
    ensures Search(jurusan, ptn, Some(UpperStr(q))) == Search(jurusan, ptn, Some(q))
  {
    LowerStrOfUpper(q);
    WhereExt(Catalog(jurusan, ptn), Matching(UpperStr(q)), Matching(q));
  }

  /** Nor does it depend on the letter case of the stored names. */
  lemma MatchingIgnoresNameCase(q: string, l: Listing)
    ensures Matching(q)((l.0.(namaJurusan := UpperStr(l.0.namaJurusan)), l.1.(namaPtn := UpperStr(l.1.namaPtn))))
         == Matching(q)(l)
  {
    LikeContainsIgnoresCase(l.0.namaJurusan, q);
    LikeContainsIgnoresCase(l.1.namaPtn, q);
  }

  // -------------------------------------------------------- GET /jurusan

  /** `if (kelompok) ... AND j.kelompok = ?` and `if (ptn_id) ... AND
      j.ptn_id = ?`: each filter applies when its parameter is present and
      non-empty. */
  function ListFilter(kelompok: Option<string>, ptnId: Option<int>): Listing -> bool
  {
    (l: Listing) =>
      && (kelompok.None? || kelompok.value == "" || KelompokName(l.0.kelompok) == kelompok.value)
      && (ptnId.None? || l.0.ptnId == ptnId.value)
  }

  /** `GET /jurusan`: exactly the catalog rows passing the filters, highest
      passing grade first, with no limit. */
  function ListJurusan(jurusan: seq<Jurusan>, ptn: seq<Ptn>, kelompok: Option<string>, ptnId: Option<int>): (r: seq<Listing>)
    ensures forall l :: l in r <==>
      && l.0 in jurusan && l.1 in ptn && l.0.ptnId == l.1.id
      && (kelompok.None? || kelompok.value == "" || KelompokName(l.0.kelompok) == kelompok.value)
      && (ptnId.None? || l.0.ptnId == ptnId.value)
    ensures forall l :: multiset(r)[l] ==
                        (if ListFilter(kelompok, ptnId)(l) then JoinMultiplicity(jurusan, ptn, PtnOf, l) else 0)
    ensures SortedBy(r, ByPassingGradeDesc)
  {
    var w := Where(Catalog(jurusan, ptn), ListFilter(kelompok, ptnId));
    CatalogCount(jurusan, ptn, ListFilter(kelompok, ptnId));
    PassingGradeDescIsPreorder();
    SortBySorted(w, ByPassingGradeDesc);
    SortByMembers(w, ByPassingGradeDesc);
    SortBy(w, ByPassingGradeDesc)
  }

  /** Unlike the recommendation, the listing gives `'all'` no special
      meaning: no major is in a group named "all", so nothing is listed. */
  lemma ListAllIsEmpty(jurusan: seq<Jurusan>, ptn: seq<Ptn>, ptnId: Option<int>)
    ensures ListJurusan(jurusan, ptn, Some("all"), ptnId) == []
  {
    assert forall k: Kelompok :: KelompokName(k) != "all";
    WhereNone(Catalog(jurusan, ptn), ListFilter(Some("all"), ptnId));
  }
}
