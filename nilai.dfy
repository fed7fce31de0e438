/** routes/nilai.js: the grade table. Its reads (the user's grades, the
    per-semester and per-subject averages) are functions of the tables; its
    writes (save one grade, save a batch, delete a grade) are methods on the
    database object. The aggregations here are also what the dashboard and the
    recommendation read. */
module NilaiRoute {
  import opened Wrappers
  import opened Sql
  import opened Schema

  // ------------------------------------------------------ shared reads

  function OwnedBy(userId: int): Nilai -> bool { (n: Nilai) => n.userId == userId }

  /** `... FROM nilai WHERE user_id = ?` */
  function UserRows(nilai: seq<Nilai>, userId: int): seq<Nilai>
  {
    Where(nilai, OwnedBy(userId))
  }

  function Scores(rows: seq<Nilai>): (r: seq<real>)
    ensures |r| == |rows|
    ensures forall i :: 0 <= i < |r| ==> r[i] == rows[i].nilai
  {
    seq(|rows|, i requires 0 <= i < |rows| => rows[i].nilai)
  }

  /** `SELECT AVG(nilai) FROM nilai WHERE user_id = ?` */
  function UserAverage(nilai: seq<Nilai>, userId: int): Option<real>
  {
    Avg(Scores(UserRows(nilai, userId)))
  }

  /** The user's average is NULL exactly when the user has no grade, and is
      otherwise the mean of the user's scores, within [0, 100] when every
      stored score is. */
  lemma UserAverageSpec(nilai: seq<Nilai>, userId: int)
    ensures UserAverage(nilai, userId).None? <==> forall n :: n in nilai ==> n.userId != userId
    ensures UserAverage(nilai, userId).Some? ==> MeanOf(UserAverage(nilai, userId).value, Scores(UserRows(nilai, userId)))
    ensures (forall n :: n in nilai ==> ValidScore(n.nilai)) && UserAverage(nilai, userId).Some? ==>
      ValidScore(UserAverage(nilai, userId).value)
  {
    var rows := UserRows(nilai, userId);
    if rows != [] {
      assert rows[0] in rows;
      if forall n :: n in nilai ==> ValidScore(n.nilai) {
        forall i | 0 <= i < |Scores(rows)| ensures 0.0 <= Scores(rows)[i] <= 100.0 {
          assert rows[i] in rows;
        }
        AvgWithin(Scores(rows), 0.0, 100.0);
      }
    }
  }

  // --------------------------------------------------- GROUP BY semester

  datatype SemesterStat = SemesterStat(semester: int, rataRata: real, jumlahMapel: nat)

  function InSemester(semester: int): Nilai -> bool { (n: Nilai) => n.semester == semester }

  function SemesterList(rows: seq<Nilai>): (r: seq<int>)
    ensures forall s :: s in r <==> exists n :: n in rows && n.semester == s
  {
    var r := seq(|rows|, i requires 0 <= i < |rows| => rows[i].semester);
    assert forall n :: n in rows ==> n.semester in r by {
      forall n | n in rows ensures n.semester in r {
        var k :| 0 <= k < |rows| && rows[k] == n;
        assert r[k] == n.semester;
      }
    }
    r
  }

  function SemesterStatOf(rows: seq<Nilai>, semester: int): SemesterStat
  {
    var g := Where(rows, InSemester(semester));
    SemesterStat(semester, Avg(Scores(g)).GetOr(0.0), |g|)
  }

  /** A semester that has a grade gets a positive count and the mean of its
      grades. */
  lemma SemesterStatOfGraded(rows: seq<Nilai>, n: Nilai)
    requires n in rows
    ensures var e := SemesterStatOf(rows, n.semester);
      && e.jumlahMapel > 0
      && MeanOf(e.rataRata, Scores(Where(rows, InSemester(n.semester))))
  {
    assert InSemester(n.semester)(n);
    assert n in Where(rows, InSemester(n.semester));
  }

  function StatsFor(rows: seq<Nilai>, sems: seq<int>): (r: seq<SemesterStat>)
    ensures |r| == |sems|
    ensures forall i :: 0 <= i < |r| ==> r[i] == SemesterStatOf(rows, sems[i])
  {
    seq(|sems|, i requires 0 <= i < |sems| => SemesterStatOf(rows, sems[i]))
  }

  /** `SELECT semester, AVG(nilai), COUNT(*) ... GROUP BY semester ORDER BY
      semester`: one entry per semester that has a grade, ascending, each with
      the number of grades of that semester and their mean. */
  function PerSemester(rows: seq<Nilai>): (r: seq<SemesterStat>)
    ensures forall i, j :: 0 <= i < j < |r| ==> r[i].semester < r[j].semester
    ensures forall n :: n in rows ==> exists i :: 0 <= i < |r| && r[i].semester == n.semester
    ensures forall i :: 0 <= i < |r| ==>
      && r[i].jumlahMapel == |Where(rows, InSemester(r[i].semester))|
      && r[i].jumlahMapel > 0
      && MeanOf(r[i].rataRata, Scores(Where(rows, InSemester(r[i].semester))))
  {
    var sems := DistinctAsc(SemesterList(rows));
    var r := StatsFor(rows, sems);
    PerSemesterFacts(rows, sems, r);
    r
  }

  lemma PerSemesterFacts(rows: seq<Nilai>, sems: seq<int>, r: seq<SemesterStat>)
    requires sems == DistinctAsc(SemesterList(rows)) && r == StatsFor(rows, sems)
    ensures forall n :: n in rows ==> exists i :: 0 <= i < |r| && r[i].semester == n.semester
    ensures forall i :: 0 <= i < |r| ==>
      && r[i].jumlahMapel > 0
      && MeanOf(r[i].rataRata, Scores(Where(rows, InSemester(r[i].semester))))
  {
    forall n | n in rows ensures exists i :: 0 <= i < |r| && r[i].semester == n.semester {
      assert n.semester in SemesterList(rows);
      var i :| 0 <= i < |sems| && sems[i] == n.semester;
      assert r[i].semester == n.semester;
    }
    forall i | 0 <= i < |r|
      ensures r[i].jumlahMapel > 0
      ensures MeanOf(r[i].rataRata, Scores(Where(rows, InSemester(r[i].semester))))
    {
      assert sems[i] in SemesterList(rows);
      var n :| n in rows && n.semester == sems[i];
      SemesterStatOfGraded(rows, n);
    }
  }

  // ---------------------------------------------------- GROUP BY mapel_id

  /** A subject row with the mean of its grades. */
  datatype MapelStat = MapelStat(mapel: Mapel, rataRata: real)

  function MapelOfNilai(n: Nilai, m: Mapel): bool { n.mapelId == m.id }

  function InGroup(mapelId: int): ((Nilai, Mapel)) -> bool { (p: (Nilai, Mapel)) => p.0.mapelId == mapelId }

  function GroupIds(joined: seq<(Nilai, Mapel)>): (r: seq<int>)
    ensures forall id :: id in r <==> exists p :: p in joined && p.0.mapelId == id
  {
    var r := seq(|joined|, i requires 0 <= i < |joined| => joined[i].0.mapelId);
    assert forall p :: p in joined ==> p.0.mapelId in r by {
      forall p | p in joined ensures p.0.mapelId in r {
        var k :| 0 <= k < |joined| && joined[k] == p;
        assert r[k] == p.0.mapelId;
      }
    }
    r
  }

  function PairScores(g: seq<(Nilai, Mapel)>): (r: seq<real>)
    ensures |r| == |g|
  {
    seq(|g|, i requires 0 <= i < |g| => g[i].0.nilai)
  }

  function GroupStat(joined: seq<(Nilai, Mapel)>, mapelId: int): MapelStat
    requires mapelId in GroupIds(joined)
  {
    var g := Where(joined, InGroup(mapelId));
    var p :| p in joined && p.0.mapelId == mapelId;
    assert p in g;
    MapelStat(g[0].1, Avg(PairScores(g)).value)
  }

  const ByRataRataDesc: (MapelStat, MapelStat) -> bool := (a: MapelStat, b: MapelStat) => a.rataRata >= b.rataRata

  /** A subject stat names the subject of one group of joined grades and
      holds the mean of that group's scores. */
  ghost predicate IsGroupStat(joined: seq<(Nilai, Mapel)>, e: MapelStat)
  {
    var g := Where(joined, InGroup(e.mapel.id));
    && (exists p :: p in g && p.1 == e.mapel)
    && MeanOf(e.rataRata, PairScores(g))
  }

  lemma GroupStatSpec(joined: seq<(Nilai, Mapel)>, mapelId: int)
    requires mapelId in GroupIds(joined)
    requires forall p :: p in joined ==> p.0.mapelId == p.1.id
    ensures GroupStat(joined, mapelId).mapel.id == mapelId
    ensures IsGroupStat(joined, GroupStat(joined, mapelId))
  {
    var g := Where(joined, InGroup(mapelId));
    var p :| p in joined && p.0.mapelId == mapelId;
    assert p in g;
    assert g[0] in g;
  }

  function StatsOf(joined: seq<(Nilai, Mapel)>, ids: seq<int>): (r: seq<MapelStat>)
    requires forall id :: id in ids ==> id in GroupIds(joined)
    ensures |r| == |ids|
    ensures forall i :: 0 <= i < |ids| ==> r[i] == GroupStat(joined, ids[i])
  {
    seq(|ids|, i requires 0 <= i < |ids| => GroupStat(joined, ids[i]))
  }

  /** The ids of the subjects that have a joined grade. */
  ghost function GradedMapelIds(rows: seq<Nilai>, mapel: seq<Mapel>): set<int>
  {
    set n, m | n in rows && m in mapel && n.mapelId == m.id :: n.mapelId
  }

  /** `SELECT mp.nama_mapel, mp.kategori, AVG(n.nilai) FROM nilai n JOIN
      mata_pelajaran mp ON n.mapel_id = mp.id ... GROUP BY n.mapel_id ORDER BY
      rata_rata DESC`, highest mean first; `PerMapelSpec` states its rows. */
  function PerMapel(rows: seq<Nilai>, mapel: seq<Mapel>): (r: seq<MapelStat>)
    ensures forall i, j :: 0 <= i < j < |r| ==> r[i].rataRata >= r[j].rataRata
  {
    var stats := StatsOf(Join(rows, mapel, MapelOfNilai), DistinctAsc(GroupIds(Join(rows, mapel, MapelOfNilai))));
    SortBySorted(stats, ByRataRataDesc);
    SortBy(stats, ByRataRataDesc)
  }

  /** One entry per subject that has a joined grade, each the mean of that
      subject's grades. */
  lemma PerMapelSpec(rows: seq<Nilai>, mapel: seq<Mapel>)
    ensures forall e :: e in PerMapel(rows, mapel) ==> IsGroupStat(Join(rows, mapel, MapelOfNilai), e)
    ensures forall n, m :: n in rows && m in mapel && n.mapelId == m.id ==>
      exists e :: e in PerMapel(rows, mapel) && e.mapel.id == n.mapelId
    ensures |PerMapel(rows, mapel)| == |GradedMapelIds(rows, mapel)|
  {
    var joined := Join(rows, mapel, MapelOfNilai);
    var ids := DistinctAsc(GroupIds(joined));
    PerMapelSound(joined, ids, StatsOf(joined, ids), PerMapel(rows, mapel));
    PerMapelCovers(rows, mapel, joined, ids, StatsOf(joined, ids), PerMapel(rows, mapel));
    GroupCount(rows, mapel);
  }

  lemma PerMapelSound(joined: seq<(Nilai, Mapel)>, ids: seq<int>, stats: seq<MapelStat>, r: seq<MapelStat>)
    requires forall p :: p in joined ==> p.0.mapelId == p.1.id
    requires forall id :: id in ids ==> id in GroupIds(joined)
    requires stats == StatsOf(joined, ids)
    requires r == SortBy(stats, ByRataRataDesc)
    ensures forall e :: e in r ==> IsGroupStat(joined, e)
  {
    SortByMembers(stats, ByRataRataDesc);
    forall e | e in r ensures IsGroupStat(joined, e) {
      var i :| 0 <= i < |stats| && stats[i] == e;
      GroupStatSpec(joined, ids[i]);
    }
  }

  lemma PerMapelCovers(rows: seq<Nilai>, mapel: seq<Mapel>, joined: seq<(Nilai, Mapel)>,
                       ids: seq<int>, stats: seq<MapelStat>, r: seq<MapelStat>)
    requires joined == Join(rows, mapel, MapelOfNilai)
    requires ids == DistinctAsc(GroupIds(joined))
    requires stats == StatsOf(joined, ids)
    requires r == SortBy(stats, ByRataRataDesc)
    ensures forall n, m :: n in rows && m in mapel && n.mapelId == m.id ==>
      exists e :: e in r && e.mapel.id == n.mapelId
  {
    SortByMembers(stats, ByRataRataDesc);
    forall n, m | n in rows && m in mapel && n.mapelId == m.id
      ensures exists e :: e in r && e.mapel.id == n.mapelId
    {
      assert (n, m) in joined;
      assert n.mapelId in ids;
      var i :| 0 <= i < |ids| && ids[i] == n.mapelId;
      GroupStatSpec(joined, ids[i]);
      assert stats[i] in r;
    }
  }

  /** There are as many groups as distinct subject ids among the joined grades. */
  lemma GroupCount(rows: seq<Nilai>, mapel: seq<Mapel>)
    ensures |DistinctAsc(GroupIds(Join(rows, mapel, MapelOfNilai)))|
         == |GradedMapelIds(rows, mapel)|
  {
    var joined := Join(rows, mapel, MapelOfNilai);
    DistinctCount(GroupIds(joined));
    var a := set y | y in GroupIds(joined);
    var b := GradedMapelIds(rows, mapel);
    forall y | y in a ensures y in b {
      var p :| p in joined && p.0.mapelId == y;
      assert p.0 in rows && p.1 in mapel && p.0.mapelId == p.1.id;
    }
    forall y | y in b ensures y in a {
      var n, m :| n in rows && m in mapel && n.mapelId == m.id && n.mapelId == y;
      assert (n, m) in joined;
    }
    assert a == b;
  }

  // ------------------------------------------------------------ GET /summary

  datatype Summary = Summary(perSemester: seq<SemesterStat>, perMapel: seq<MapelStat>,
                             rataRataKeseluruhan: real, totalMapel: nat)

  function MapelIds(rows: seq<Nilai>): (r: seq<int>)
    ensures forall id :: id in r <==> exists n :: n in rows && n.mapelId == id
  {
    var r := seq(|rows|, i requires 0 <= i < |rows| => rows[i].mapelId);
    assert forall n :: n in rows ==> n.mapelId in r by {
      forall n | n in rows ensures n.mapelId in r {
        var k :| 0 <= k < |rows| && rows[k] == n;
        assert r[k] == n.mapelId;
      }
    }
    r
  }

  /** `GET /summary`: the per-semester and per-subject aggregates of the
      user's grades, the overall mean (`|| 0` when there is none) and the
      number of distinct subjects graded. */
  function GetSummary(nilai: seq<Nilai>, mapel: seq<Mapel>, userId: int): Summary
  {
    var rows := UserRows(nilai, userId);
    Summary(PerSemester(rows), PerMapel(rows, mapel), Avg(Scores(rows)).GetOr(0.0),
            |DistinctAsc(MapelIds(rows))|)
  }

  /** The overall mean is 0 with no grades and the mean of the user's scores
      otherwise; `totalMapel` counts the distinct subjects the user has graded;
      the per-semester list is ascending and per-subject list descending. */
  lemma SummarySpec(nilai: seq<Nilai>, mapel: seq<Mapel>, userId: int)
    ensures var s := GetSummary(nilai, mapel, userId);
      && (UserRows(nilai, userId) == [] ==> s.rataRataKeseluruhan == 0.0)
      && (UserRows(nilai, userId) != [] ==> MeanOf(s.rataRataKeseluruhan, Scores(UserRows(nilai, userId))))
      && s.totalMapel == |set n | n in nilai && n.userId == userId :: n.mapelId|
      && (forall i, j :: 0 <= i < j < |s.perSemester| ==> s.perSemester[i].semester < s.perSemester[j].semester)
      && (forall i, j :: 0 <= i < j < |s.perMapel| ==> s.perMapel[i].rataRata >= s.perMapel[j].rataRata)
  {
    var rows := UserRows(nilai, userId);
    DistinctCount(MapelIds(rows));
    assert (set y | y in MapelIds(rows)) == (set n | n in nilai && n.userId == userId :: n.mapelId) by {
      forall y | y in MapelIds(rows) ensures y in (set n | n in nilai && n.userId == userId :: n.mapelId) {
        var n :| n in rows && n.mapelId == y;
      }
      forall y | y in (set n | n in nilai && n.userId == userId :: n.mapelId) ensures y in MapelIds(rows) {
        var n :| n in nilai && n.userId == userId && n.mapelId == y;
        assert n in rows;
      }
    }
  }

  // ----------------------------------------------------------------- GET /

  function PairOwnedBy(userId: int): ((Nilai, Mapel)) -> bool { (p: (Nilai, Mapel)) => p.0.userId == userId }

  /** `ORDER BY mp.nama_mapel, n.semester`. */
  const ByNamaThenSemester: ((Nilai, Mapel), (Nilai, Mapel)) -> bool :=
    (a: (Nilai, Mapel), b: (Nilai, Mapel)) =>
      StrLe(a.1.namaMapel, b.1.namaMapel) && (a.1.namaMapel == b.1.namaMapel ==> a.0.semester <= b.0.semester)

  lemma NamaThenSemesterIsPreorder()
    ensures Total(ByNamaThenSemester) && Transitive(ByNamaThenSemester)
  {
    forall a: (Nilai, Mapel), b: (Nilai, Mapel) ensures ByNamaThenSemester(a, b) || ByNamaThenSemester(b, a) {
      StrLeTotal(a.1.namaMapel, b.1.namaMapel);
      if a.1.namaMapel != b.1.namaMapel && StrLe(a.1.namaMapel, b.1.namaMapel) && StrLe(b.1.namaMapel, a.1.namaMapel) {
        StrLeAntisymmetric(a.1.namaMapel, b.1.namaMapel);
      }
    }
    forall a: (Nilai, Mapel), b: (Nilai, Mapel), c: (Nilai, Mapel)
      | ByNamaThenSemester(a, b) && ByNamaThenSemester(b, c)
      ensures ByNamaThenSemester(a, c)
    {
      StrLeTransitive(a.1.namaMapel, b.1.namaMapel, c.1.namaMapel);
      if a.1.namaMapel == c.1.namaMapel {
        StrLeAntisymmetric(a.1.namaMapel, b.1.namaMapel);
      }
    }
  }

  /** `GET /`: exactly the user's grades, each with its subject, ordered by
      subject name and then semester. */
  function List(nilai: seq<Nilai>, mapel: seq<Mapel>, userId: int): (r: seq<(Nilai, Mapel)>)
    ensures forall p :: p in r <==> p.0 in nilai && p.1 in mapel && p.0.mapelId == p.1.id && p.0.userId == userId
    ensures forall p :: multiset(r)[p] ==
                        (if p.0.userId == userId then JoinMultiplicity(nilai, mapel, MapelOfNilai, p) else 0)
    ensures SortedBy(r, ByNamaThenSemester)
  {
    var w := Where(Join(nilai, mapel, MapelOfNilai), PairOwnedBy(userId));
    ListCount(nilai, mapel, userId);
    NamaThenSemesterIsPreorder();
    SortBySorted(w, ByNamaThenSemester);
    SortByMembers(w, ByNamaThenSemester);
    SortBy(w, ByNamaThenSemester)
  }

  lemma ListCount(nilai: seq<Nilai>, mapel: seq<Mapel>, userId: int)
    ensures forall p :: multiset(Where(Join(nilai, mapel, MapelOfNilai), PairOwnedBy(userId)))[p] ==
                        (if p.0.userId == userId then JoinMultiplicity(nilai, mapel, MapelOfNilai, p) else 0)
  {
    forall p ensures multiset(Where(Join(nilai, mapel, MapelOfNilai), PairOwnedBy(userId)))[p] ==
                     (if p.0.userId == userId then JoinMultiplicity(nilai, mapel, MapelOfNilai, p) else 0)
    {
      JoinWhereCount(nilai, mapel, MapelOfNilai, PairOwnedBy(userId), p);
    }
  }

  function PairInMapel(mapelId: int, userId: int): ((Nilai, Mapel)) -> bool
  {
    (p: (Nilai, Mapel)) => p.0.mapelId == mapelId && p.0.userId == userId
  }

  const BySemester: ((Nilai, Mapel), (Nilai, Mapel)) -> bool :=
    (a: (Nilai, Mapel), b: (Nilai, Mapel)) => a.0.semester <= b.0.semester

  /** `GET /mapel/:mapelId`: exactly the user's grades of that subject,
      ordered by semester. */
  function ListByMapel(nilai: seq<Nilai>, mapel: seq<Mapel>, mapelId: int, userId: int): (r: seq<(Nilai, Mapel)>)
    ensures forall p :: p in r <==>
      p.0 in nilai && p.1 in mapel && p.0.mapelId == p.1.id && p.0.mapelId == mapelId && p.0.userId == userId
    ensures forall p :: multiset(r)[p] ==
                        (if p.0.mapelId == mapelId && p.0.userId == userId
                         then JoinMultiplicity(nilai, mapel, MapelOfNilai, p) else 0)
    ensures forall i, j :: 0 <= i < j < |r| ==> r[i].0.semester <= r[j].0.semester
  {
    var w := Where(Join(nilai, mapel, MapelOfNilai), PairInMapel(mapelId, userId));
    ListByMapelCount(nilai, mapel, mapelId, userId);
    var r := SortBy(w, BySemester);
    SortBySorted(w, BySemester);
    SortByMembers(w, BySemester);
    r
  }

  lemma ListByMapelCount(nilai: seq<Nilai>, mapel: seq<Mapel>, mapelId: int, userId: int)
    ensures forall p :: multiset(Where(Join(nilai, mapel, MapelOfNilai), PairInMapel(mapelId, userId)))[p] ==
                        (if p.0.mapelId == mapelId && p.0.userId == userId
                         then JoinMultiplicity(nilai, mapel, MapelOfNilai, p) else 0)
  {
    forall p ensures multiset(Where(Join(nilai, mapel, MapelOfNilai), PairInMapel(mapelId, userId)))[p] ==
                     (if p.0.mapelId == mapelId && p.0.userId == userId
                      then JoinMultiplicity(nilai, mapel, MapelOfNilai, p) else 0)
    {
      JoinWhereCount(nilai, mapel, MapelOfNilai, PairInMapel(mapelId, userId), p);
    }
  }

  // ----------------------------------------------------------- the upsert

  /** The grade table with its AUTOINCREMENT counter. */
  datatype Table = Table(rows: seq<Nilai>, nextId: int)

  /** `SELECT id FROM nilai WHERE mapel_id = ? AND semester = ? AND user_id = ?`
      (`.get()`: the first such row). */
  function FindTriple(rows: seq<Nilai>, mapelId: int, semester: int, userId: int): (r: Option<Nilai>)
    ensures r.Some? ==> r.value in rows && TripleKey(r.value) == (mapelId, semester, userId)
    ensures r.None? ==> forall n :: n in rows ==> TripleKey(n) != (mapelId, semester, userId)
  {
    if rows == [] then None
    else if TripleKey(rows[0]) == (mapelId, semester, userId) then Some(rows[0])
    else
      assert rows == [rows[0]] + rows[1..];
      FindTriple(rows[1..], mapelId, semester, userId)
  }

  /** `UPDATE nilai SET nilai = ? WHERE id = ?`. The ensures only describe
      the rows one by one; `SetScoreAt` states the single-row update. */
  function SetScore(rows: seq<Nilai>, id: int, score: real): (r: seq<Nilai>)
    ensures |r| == |rows|
    ensures forall i :: 0 <= i < |r| ==> r[i] == if rows[i].id == id then rows[i].(nilai := score) else rows[i]
  {
    seq(|rows|, i requires 0 <= i < |rows| => if rows[i].id == id then rows[i].(nilai := score) else rows[i])
  }

  /** Update the score of the row for (subject, semester, user) if there is
      one, otherwise insert a row with the next id. */
  function Upsert(t: Table, mapelId: int, userId: int, semester: int, score: real, now: int): Table
  {
    match FindTriple(t.rows, mapelId, semester, userId)
    case Some(existing) => Table(SetScore(t.rows, existing.id, score), t.nextId)
    case None => Table(t.rows + [Nilai(t.nextId, mapelId, userId, semester, score, now)], t.nextId + 1)
  }

  /** Ids are unique, so `UPDATE ... WHERE id = ?` changes exactly one row. */
  lemma SetScoreAt(rows: seq<Nilai>, k: int, score: real)
    requires UniqueBy(rows, NilaiKey) && 0 <= k < |rows|
    ensures SetScore(rows, rows[k].id, score) == rows[k := rows[k].(nilai := score)]
  {
    var r := SetScore(rows, rows[k].id, score);
    forall i | 0 <= i < |rows| ensures r[i] == rows[k := rows[k].(nilai := score)][i] {
      if i != k {
        assert NilaiKey(rows[i]) != NilaiKey(rows[k]);
      }
    }
  }

  /** Changing the score of one row keeps the constraints and every other row. */
  lemma UpdateAtSpec(rows: seq<Nilai>, nextId: int, mapel: seq<Mapel>, k: int, score: real)
    requires NilaiValid(rows, nextId, mapel) && 0 <= k < |rows| && ValidScore(score)
    ensures var r := rows[k := rows[k].(nilai := score)];
      && NilaiValid(r, nextId, mapel)
      && (forall n :: n in rows && TripleKey(n) != TripleKey(rows[k]) ==> n in r)
      && (forall n :: n in r && TripleKey(n) != TripleKey(rows[k]) ==> n in rows)
  {
    var r := rows[k := rows[k].(nilai := score)];
    assert forall i :: 0 <= i < |r| ==> NilaiKey(r[i]) == NilaiKey(rows[i]) && TripleKey(r[i]) == TripleKey(rows[i]);
    forall n | n in rows && TripleKey(n) != TripleKey(rows[k]) ensures n in r {
      var i :| 0 <= i < |rows| && rows[i] == n;
      assert r[i] == n;
    }
    forall n | n in r ensures OwnsMapel(mapel, n.userId, n.mapelId) && ValidScore(n.nilai) && n.id < nextId
      ensures TripleKey(n) != TripleKey(rows[k]) ==> n in rows
    {
      var i :| 0 <= i < |r| && r[i] == n;
      assert rows[i] in rows;
    }
  }

  /** Appending a row with the next id and a fresh triple keeps the constraints. */
  lemma InsertSpec(rows: seq<Nilai>, nextId: int, mapel: seq<Mapel>, x: Nilai)
    requires NilaiValid(rows, nextId, mapel)
    requires x.id == nextId && OwnsMapel(mapel, x.userId, x.mapelId) && ValidScore(x.nilai)
    requires forall n :: n in rows ==> TripleKey(n) != TripleKey(x)
    ensures NilaiValid(rows + [x], nextId + 1, mapel)
  {
    UniqueSnoc(rows, x, NilaiKey);
    UniqueSnoc(rows, x, TripleKey);
  }

  /** An upsert keeps the grade table's constraints when the subject belongs
      to the user and the score is in range. */
  lemma UpsertValid(t: Table, mapel: seq<Mapel>, mapelId: int, userId: int, semester: int, score: real, now: int)
    requires NilaiValid(t.rows, t.nextId, mapel)
    requires OwnsMapel(mapel, userId, mapelId) && ValidScore(score)
    ensures NilaiValid(Upsert(t, mapelId, userId, semester, score, now).rows,
                       Upsert(t, mapelId, userId, semester, score, now).nextId, mapel)
  {
    match FindTriple(t.rows, mapelId, semester, userId)
    case Some(e) =>
      var k :| 0 <= k < |t.rows| && t.rows[k] == e;
      SetScoreAt(t.rows, k, score);
      UpdateAtSpec(t.rows, t.nextId, mapel, k, score);
    case None =>
      InsertSpec(t.rows, t.nextId, mapel, Nilai(t.nextId, mapelId, userId, semester, score, now));
  }

  /** An upsert keeps the grade table's constraints when the subject belongs
      to the user and the score is in range. Afterwards the triple has a row
      holding the new score; every row of another triple is kept unchanged;
      an existing triple keeps the table size and a new one adds one row. */
  lemma UpsertSpec(t: Table, mapel: seq<Mapel>, mapelId: int, userId: int, semester: int, score: real, now: int)
    requires NilaiValid(t.rows, t.nextId, mapel)
    requires OwnsMapel(mapel, userId, mapelId) && ValidScore(score)
    ensures var u := Upsert(t, mapelId, userId, semester, score, now);
      && NilaiValid(u.rows, u.nextId, mapel)
      && (exists k :: 0 <= k < |u.rows| && TripleKey(u.rows[k]) == (mapelId, semester, userId) && u.rows[k].nilai == score)
      && (forall n :: n in t.rows && TripleKey(n) != (mapelId, semester, userId) ==> n in u.rows)
      && (forall n :: n in u.rows && TripleKey(n) != (mapelId, semester, userId) ==> n in t.rows)
      && |u.rows| == |t.rows| + (if FindTriple(t.rows, mapelId, semester, userId).Some? then 0 else 1)
  {
    var u := Upsert(t, mapelId, userId, semester, score, now);
    match FindTriple(t.rows, mapelId, semester, userId)
    case Some(e) =>
      var k :| 0 <= k < |t.rows| && t.rows[k] == e;
      SetScoreAt(t.rows, k, score);
      UpdateAtSpec(t.rows, t.nextId, mapel, k, score);
      assert TripleKey(u.rows[k]) == TripleKey(e) && u.rows[k].nilai == score;
    case None =>
      var x := Nilai(t.nextId, mapelId, userId, semester, score, now);
      InsertSpec(t.rows, t.nextId, mapel, x);
      assert u.rows[|t.rows|] == x;
      forall n | n in u.rows && TripleKey(n) != TripleKey(x) ensures n in t.rows {
      }
  }

  /** The update-or-insert of `POST /` and of each accepted `POST /batch`
      item: the table becomes `Upsert` of the old one, and `updated` says
      whether the triple already had a row. */
  method UpsertRow(db: Db, mapelId: int, userId: int, semester: int, score: real, now: int) returns (updated: bool)
    requires db.Valid() && OwnsMapel(db.mapel, userId, mapelId) && ValidScore(score)
    modifies db`nilai, db`nextNilaiId
    ensures db.Valid()
    ensures Table(db.nilai, db.nextNilaiId) ==
      Upsert(Table(old(db.nilai), old(db.nextNilaiId)), mapelId, userId, semester, score, now)
    ensures updated <==> FindTriple(old(db.nilai), mapelId, semester, userId).Some?
  {
    UpsertValid(Table(db.nilai, db.nextNilaiId), db.mapel, mapelId, userId, semester, score, now);
    var existing := FindTriple(db.nilai, mapelId, semester, userId);
    if existing.Some? {
      db.nilai := SetScore(db.nilai, existing.value.id, score);
      updated := true;
    } else {
      db.nilai := db.nilai + [Nilai(db.nextNilaiId, mapelId, userId, semester, score, now)];
      db.nextNilaiId := db.nextNilaiId + 1;
      updated := false;
    }
  }

  // ------------------------------------------------------------- POST /

  /** The fields of the request body. A field that is missing, or that
      JavaScript treats as false (the number 0), is 0 for `mapelId` and
      `semester`; `nilai` is None when it is undefined. */
  datatype SaveRequest = SaveRequest(mapelId: int, semester: int, nilai: Option<real>)

  datatype SaveResult = MissingFields | OutOfRange | MapelNotFound | Updated | Inserted(id: int)

  predicate MissingSaveField(req: SaveRequest)
  {
    req.mapelId == 0 || req.semester == 0 || req.nilai.None?
  }

  /** `POST /`: validate, check that the subject is the user's, then update the
      grade of that (subject, semester) or insert it. A rejected request also
      leaves the table unchanged. */
  method Save(db: Db, userId: int, req: SaveRequest, now: int) returns (res: SaveResult)
    requires db.Valid()
    modifies db`nilai, db`nextNilaiId
    ensures db.Valid()
    ensures res == MissingFields <==> MissingSaveField(req)
    ensures res == OutOfRange <==> !MissingSaveField(req) && !ValidScore(req.nilai.value)
    ensures res == MapelNotFound <==>
      !MissingSaveField(req) && ValidScore(req.nilai.value) && !OwnsMapel(db.mapel, userId, req.mapelId)
    ensures res.Updated? || res.Inserted? ==>
      Table(db.nilai, db.nextNilaiId) ==
        Upsert(Table(old(db.nilai), old(db.nextNilaiId)), req.mapelId, userId, req.semester, req.nilai.value, now)
    ensures res.Updated? <==>
      (res != MissingFields && res != OutOfRange && res != MapelNotFound &&
       FindTriple(old(db.nilai), req.mapelId, req.semester, userId).Some?)
    ensures res.Inserted? ==> res.id == old(db.nextNilaiId)
    ensures !(res.Updated? || res.Inserted?) ==> db.nilai == old(db.nilai) && db.nextNilaiId == old(db.nextNilaiId)
  {
    if MissingSaveField(req) {
      return MissingFields;
    }
    var score := req.nilai.value;
    if score < 0.0 || score > 100.0 {
      return OutOfRange;
    }
    if !OwnsMapel(db.mapel, userId, req.mapelId) {
      return MapelNotFound;
    }
    var id := db.nextNilaiId;
    var updated := UpsertRow(db, req.mapelId, userId, req.semester, score, now);
    res := if updated then Updated else Inserted(id);
  }

  // -------------------------------------------------------- POST /batch

  /** The `nilai` of a batch item: `Blank` for null, undefined or '', and
      otherwise the result of `parseFloat`, None standing for NaN. */
  datatype RawScore = Blank | Parsed(value: Option<real>)

  datatype BatchItem = BatchItem(semester: int, nilai: RawScore)

  datatype BatchResult = InvalidFormat | BatchMapelNotFound | Saved

  /** The score an item contributes, if the loop does not skip it. */
  function Accepted(item: BatchItem): (r: Option<real>)
    ensures r.Some? <==> item.nilai.Parsed? && item.nilai.value.Some? && ValidScore(item.nilai.value.value)
    ensures r.Some? ==> r.value == item.nilai.value.value
  {
    match item.nilai
    case Blank => None
    case Parsed(v) => if v.Some? && 0.0 <= v.value && v.value <= 100.0 then v else None
  }

  function IsAccepted(item: BatchItem): bool { Accepted(item).Some? }

  function ApplyItem(t: Table, mapelId: int, userId: int, item: BatchItem, now: int): Table
  {
    match Accepted(item)
    case None => t
    case Some(score) => Upsert(t, mapelId, userId, item.semester, score, now)
  }

  /** The table after the loop has processed `items` in order. */
  function ApplyBatch(t: Table, mapelId: int, userId: int, items: seq<BatchItem>, now: int): Table
    decreases |items|
  {
    if items == [] then t
    else ApplyItem(ApplyBatch(t, mapelId, userId, items[..|items| - 1], now), mapelId, userId, items[|items| - 1], now)
  }

  /** The batch keeps the grade table's constraints. */
  lemma {:induction false} ApplyBatchValid(t: Table, mapel: seq<Mapel>, mapelId: int, userId: int, items: seq<BatchItem>, now: int)
    requires NilaiValid(t.rows, t.nextId, mapel) && OwnsMapel(mapel, userId, mapelId)
    ensures var u := ApplyBatch(t, mapelId, userId, items, now); NilaiValid(u.rows, u.nextId, mapel)
    decreases |items|
  {
    if items != [] {
      var prefix := items[..|items| - 1];
      ApplyBatchValid(t, mapel, mapelId, userId, prefix, now);
      var mid := ApplyBatch(t, mapelId, userId, prefix, now);
      var last := items[|items| - 1];
      if Accepted(last).Some? {
        UpsertValid(mid, mapel, mapelId, userId, last.semester, Accepted(last).value, now);
      }
    }
  }

  /** Skipped items have no effect: the batch does what the batch of its
      accepted items alone does. */
  lemma {:induction false} BatchIgnoresRejected(t: Table, mapelId: int, userId: int, items: seq<BatchItem>, now: int)
    ensures ApplyBatch(t, mapelId, userId, items, now) == ApplyBatch(t, mapelId, userId, Where(items, IsAccepted), now)
    decreases |items|
  {
    if items != [] {
      var prefix, last := items[..|items| - 1], items[|items| - 1];
      assert items == prefix + [last];
      BatchIgnoresRejected(t, mapelId, userId, prefix, now);
      WhereSnoc(prefix, last, IsAccepted);
      var w := Where(prefix, IsAccepted);
      if IsAccepted(last) {
        assert Where(items, IsAccepted) == w + [last];
        assert (w + [last])[..|w + [last]| - 1] == w;
      } else {
        assert Where(items, IsAccepted) == w;
      }
    }
  }

  /** The score of the last accepted item for a semester, if any. */
  function LastAccepted(items: seq<BatchItem>, semester: int): Option<real>
    decreases |items|
  {
    if items == [] then None
    else
      var last := items[|items| - 1];
      if last.semester == semester && Accepted(last).Some? then Accepted(last)
      else LastAccepted(items[..|items| - 1], semester)
  }

  /** A later item for the same semester overwrites an earlier one: after the
      batch, the grade of each semester some item was accepted for is the
      score of the last such item. */
  lemma {:induction false} BatchLastWins(t: Table, mapel: seq<Mapel>, mapelId: int, userId: int,
                                         items: seq<BatchItem>, now: int, semester: int)
    requires NilaiValid(t.rows, t.nextId, mapel) && OwnsMapel(mapel, userId, mapelId)
    requires LastAccepted(items, semester).Some?
    ensures exists k ::
      && 0 <= k < |ApplyBatch(t, mapelId, userId, items, now).rows|
      && TripleKey(ApplyBatch(t, mapelId, userId, items, now).rows[k]) == (mapelId, semester, userId)
      && ApplyBatch(t, mapelId, userId, items, now).rows[k].nilai == LastAccepted(items, semester).value
    decreases |items|
  {
    var prefix, last := items[..|items| - 1], items[|items| - 1];
    var mid := ApplyBatch(t, mapelId, userId, prefix, now);
    ApplyBatchValid(t, mapel, mapelId, userId, prefix, now);
    var u := ApplyBatch(t, mapelId, userId, items, now);
    var triple := (mapelId, semester, userId);
    if last.semester == semester && Accepted(last).Some? {
      UpsertSpec(mid, mapel, mapelId, userId, last.semester, Accepted(last).value, now);
      assert u == Upsert(mid, mapelId, userId, last.semester, Accepted(last).value, now);
      assert LastAccepted(items, semester) == Accepted(last);
      var k :| 0 <= k < |u.rows| && TripleKey(u.rows[k]) == triple && u.rows[k].nilai == Accepted(last).value;
    } else {
      BatchLastWins(t, mapel, mapelId, userId, prefix, now, semester);
      var k :| 0 <= k < |mid.rows| && TripleKey(mid.rows[k]) == triple && mid.rows[k].nilai == LastAccepted(prefix, semester).value;
      assert LastAccepted(items, semester) == LastAccepted(prefix, semester);
      if Accepted(last).Some? {
        UpsertSpec(mid, mapel, mapelId, userId, last.semester, Accepted(last).value, now);
        assert TripleKey(mid.rows[k]) != (mapelId, last.semester, userId);
        assert mid.rows[k] in u.rows;
        var k' :| 0 <= k' < |u.rows| && u.rows[k'] == mid.rows[k];
      } else {
        assert u == mid;
      }
    }
  }

  /** Whether the batch writes the row's triple: the row is of the batch's
      subject and user, and some item for its semester is accepted. */
  predicate BatchTouches(mapelId: int, userId: int, items: seq<BatchItem>, n: Nilai)
  {
    n.mapelId == mapelId && n.userId == userId && LastAccepted(items, n.semester).Some?
  }

  /** Each item writes only the row of its own (subject, semester, user): a
      row of any other triple is in the table after the batch exactly when it
      was before. */
  lemma {:induction false} BatchFrame(t: Table, mapel: seq<Mapel>, mapelId: int, userId: int,
                                      items: seq<BatchItem>, now: int, n: Nilai)
    requires NilaiValid(t.rows, t.nextId, mapel) && OwnsMapel(mapel, userId, mapelId)
    requires !BatchTouches(mapelId, userId, items, n)
    ensures n in ApplyBatch(t, mapelId, userId, items, now).rows <==> n in t.rows
    decreases |items|
  {
    if items != [] {
      var prefix, last := items[..|items| - 1], items[|items| - 1];
      assert !BatchTouches(mapelId, userId, prefix, n);
      BatchFrame(t, mapel, mapelId, userId, prefix, now, n);
      var mid := ApplyBatch(t, mapelId, userId, prefix, now);
      if Accepted(last).Some? {
        ApplyBatchValid(t, mapel, mapelId, userId, prefix, now);
        UpsertSpec(mid, mapel, mapelId, userId, last.semester, Accepted(last).value, now);
        assert TripleKey(n) != (mapelId, last.semester, userId);
      }
    }
  }

  /** The batch's frame for all rows, both ways. */
  lemma BatchKeepsOthers(t: Table, mapel: seq<Mapel>, mapelId: int, userId: int, items: seq<BatchItem>, now: int)
    requires NilaiValid(t.rows, t.nextId, mapel) && OwnsMapel(mapel, userId, mapelId)
    ensures forall n :: n in t.rows && !BatchTouches(mapelId, userId, items, n) ==>
      n in ApplyBatch(t, mapelId, userId, items, now).rows
    ensures forall n :: n in ApplyBatch(t, mapelId, userId, items, now).rows && !BatchTouches(mapelId, userId, items, n) ==>
      n in t.rows
  {
    forall n | !BatchTouches(mapelId, userId, items, n)
      ensures n in ApplyBatch(t, mapelId, userId, items, now).rows <==> n in t.rows
    {
      BatchFrame(t, mapel, mapelId, userId, items, now, n);
    }
  }

  /** `POST /batch`: check the body and the subject's owner, then upsert every
      item with a score in [0, 100], skipping the others. */
  method SaveBatch(db: Db, userId: int, mapelId: int, items: Option<seq<BatchItem>>, now: int) returns (res: BatchResult)
    requires db.Valid()
    modifies db`nilai, db`nextNilaiId
    ensures db.Valid()
    ensures res == InvalidFormat <==> mapelId == 0 || items.None?
    ensures res == BatchMapelNotFound <==> mapelId != 0 && items.Some? && !OwnsMapel(db.mapel, userId, mapelId)
    ensures res == Saved ==>
      Table(db.nilai, db.nextNilaiId) == ApplyBatch(Table(old(db.nilai), old(db.nextNilaiId)), mapelId, userId, items.value, now)
    ensures res == Saved ==> forall n :: !BatchTouches(mapelId, userId, items.value, n) ==>
      (n in db.nilai <==> n in old(db.nilai))
    ensures res != Saved ==> db.nilai == old(db.nilai) && db.nextNilaiId == old(db.nextNilaiId)
  {
    if mapelId == 0 || items.None? {
      return InvalidFormat;
    }
    if !OwnsMapel(db.mapel, userId, mapelId) {
      return BatchMapelNotFound;
    }
    var list := items.value;
    ghost var start := Table(db.nilai, db.nextNilaiId);
    var i := 0;
    while i < |list|
      invariant 0 <= i <= |list|
      invariant Table(db.nilai, db.nextNilaiId) == ApplyBatch(start, mapelId, userId, list[..i], now)
      invariant db.Valid()
    {
      var item := list[i];
      ghost var before := Table(db.nilai, db.nextNilaiId);
      assert list[..i + 1][..i] == list[..i];
      assert ApplyBatch(start, mapelId, userId, list[..i + 1], now) == ApplyItem(before, mapelId, userId, item, now);
      var accepted := Accepted(item);
      if accepted.Some? {
        var _ := UpsertRow(db, mapelId, userId, item.semester, accepted.value, now);
      }
      i := i + 1;
    }
    assert list[..|list|] == list;
    BatchKeepsOthers(start, db.mapel, mapelId, userId, list, now);
    res := Saved;
  }

  // ------------------------------------------------------- DELETE /:id

  datatype DeleteResult = Deleted | NotFound

  predicate OwnsNilai(nilai: seq<Nilai>, userId: int, id: int)
  {
    exists n :: n in nilai && n.id == id && n.userId == userId
  }

  /** `DELETE /:id`: a grade the user owns is removed, and only that row;
      otherwise not found and nothing changes. */
  method Delete(db: Db, userId: int, id: int) returns (res: DeleteResult)
    requires db.Valid()
    modifies db`nilai
    ensures db.Valid()
    ensures res == Deleted <==> OwnsNilai(old(db.nilai), userId, id)
    ensures res == Deleted ==> db.nilai == Where(old(db.nilai), KeyIsNot(NilaiKey, id))
    ensures res == Deleted ==> |db.nilai| == |old(db.nilai)| - 1
    ensures res == NotFound ==> db.nilai == old(db.nilai)
  {
    if !OwnsNilai(db.nilai, userId, id) {
      return NotFound;
    }
    WhereRemovesOne(db.nilai, NilaiKey, id);
    WhereKeepsUnique(db.nilai, KeyIsNot(NilaiKey, id), NilaiKey);
    WhereKeepsUnique(db.nilai, KeyIsNot(NilaiKey, id), TripleKey);
    db.nilai := Where(db.nilai, KeyIsNot(NilaiKey, id));
    res := Deleted;
  }
}
