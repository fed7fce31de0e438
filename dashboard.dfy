/** routes/dashboard.js: the statistics and the recent activity shown on the
    dashboard. Both handlers only read, so both are functions of the tables;
    the aggregates are the grade table's, cut down to what the dashboard
    selects. */
module DashboardRoute {
  import opened Wrappers
  import opened Sql
  import opened Schema
  import opened NilaiRoute
  import opened MapelRoute

  // ---------------------------------------------------------- GET /stats

  /** A point of the per-semester chart: `SELECT semester, AVG(nilai)`. */
  datatype SemesterPoint = SemesterPoint(semester: int, rataRata: real)

  function Points(s: seq<SemesterStat>): (r: seq<SemesterPoint>)
    ensures |r| == |s|
    ensures forall i :: 0 <= i < |r| ==> r[i] == SemesterPoint(s[i].semester, s[i].rataRata)
  {
    seq(|s|, i requires 0 <= i < |s| => SemesterPoint(s[i].semester, s[i].rataRata))
  }

  /** The per-semester chart: one point per semester with a grade,
      ascending, each the mean of that semester's scores. */
  function Chart(rows: seq<Nilai>): (r: seq<SemesterPoint>)
    ensures forall i, j :: 0 <= i < j < |r| ==> r[i].semester < r[j].semester
    ensures forall n :: n in rows ==> exists i :: 0 <= i < |r| && r[i].semester == n.semester
    ensures forall i :: 0 <= i < |r| ==> MeanOf(r[i].rataRata, Scores(Where(rows, InSemester(r[i].semester))))
  {
    var s := PerSemester(rows);
    var r := Points(s);
    ChartCovers(rows, s, r);
    r
  }

  lemma ChartCovers(rows: seq<Nilai>, s: seq<SemesterStat>, r: seq<SemesterPoint>)
    requires s == PerSemester(rows) && r == Points(s)
    ensures forall n :: n in rows ==> exists i :: 0 <= i < |r| && r[i].semester == n.semester
  {
    forall n | n in rows ensures exists i :: 0 <= i < |r| && r[i].semester == n.semester {
      var i :| 0 <= i < |s| && s[i].semester == n.semester;
      assert r[i].semester == n.semester;
    }
  }

  /** `userAvg + 5`: the highest passing grade the dashboard counts as
      reachable. */
  function Threshold(avg: real): real { avg + 5.0 }

  /** `passing_grade <= ?`. */
  function Reachable(threshold: real): Jurusan -> bool { (j: Jurusan) => j.passingGrade <= threshold }

  function PtnIds(jurusan: seq<Jurusan>): (r: seq<int>)
    ensures forall id :: id in r <==> exists j :: j in jurusan && j.ptnId == id
  {
    var r := seq(|jurusan|, i requires 0 <= i < |jurusan| => jurusan[i].ptnId);
    assert forall j :: j in jurusan ==> j.ptnId in r by {
      forall j | j in jurusan ensures j.ptnId in r {
        var k :| 0 <= k < |jurusan| && jurusan[k] == j;
        assert r[k] == j.ptnId;
      }
    }
    r
  }

  /** The universities with at least one major at or below the threshold. */
  ghost function ReachablePtn(jurusan: seq<Jurusan>, threshold: real): set<int>
  {
    set j | j in jurusan && j.passingGrade <= threshold :: j.ptnId
  }

  /** `SELECT COUNT(DISTINCT ptn_id) FROM jurusan WHERE passing_grade <= ?`;
      `CountReachableSpec` states what it counts. */
  function CountReachablePtn(jurusan: seq<Jurusan>, threshold: real): nat
  {
    |DistinctAsc(PtnIds(Where(jurusan, Reachable(threshold))))|
  }

  /** The count is the number of universities with at least one major at or
      below the threshold. */
  lemma CountReachableSpec(jurusan: seq<Jurusan>, threshold: real)
    ensures CountReachablePtn(jurusan, threshold) == |ReachablePtn(jurusan, threshold)|
  {
    var ids := PtnIds(Where(jurusan, Reachable(threshold)));
    DistinctCount(ids);
    assert (set y | y in ids) == ReachablePtn(jurusan, threshold) by {
      forall y | y in ids ensures y in ReachablePtn(jurusan, threshold) {
        var j :| j in Where(jurusan, Reachable(threshold)) && j.ptnId == y;
      }
      forall y | y in ReachablePtn(jurusan, threshold) ensures y in ids {
        var j :| j in jurusan && j.passingGrade <= threshold && j.ptnId == y;
        assert j in Where(jurusan, Reachable(threshold));
      }
    }
  }

  /** A higher average reaches at least as many universities, and never
      more than the catalog has. */
  lemma ReachableMonotone(jurusan: seq<Jurusan>, lo: real, hi: real)
    requires lo <= hi
    ensures CountReachablePtn(jurusan, lo) <= CountReachablePtn(jurusan, hi)
    ensures CountReachablePtn(jurusan, hi) <= |set j | j in jurusan :: j.ptnId|
  {
    var a := ReachablePtn(jurusan, lo);
    var b := ReachablePtn(jurusan, hi);
    var c := set j | j in jurusan :: j.ptnId;
    assert a <= b;
    assert b <= c;
    CountReachableSpec(jurusan, lo);
    CountReachableSpec(jurusan, hi);
    SubsetCard(a, b);
    SubsetCard(b, c);
  }

  lemma SubsetCard(a: set<int>, b: set<int>)
    requires a <= b
    ensures |a| <= |b|
  {
    assert b == a + (b - a);
  }

  /** The response of `GET /stats`. */
  datatype DashboardStats = DashboardStats(jumlahMapel: nat, jumlahNilai: nat, rataRata: real, jumlahPtn: nat,
                                           nilaiPerSemester: seq<SemesterPoint>, topSubjects: seq<MapelStat>)

  const TopLimit: nat := 5

  /** `avgNilai.average || 0`. */
  function AverageOrZero(rows: seq<Nilai>): (r: real)
    ensures rows == [] ==> r == 0.0
    ensures rows != [] ==> MeanOf(r, Scores(rows))
  {
    Avg(Scores(rows)).GetOr(0.0)
  }

  /** The five subjects with the highest mean, highest first. */
  function TopSubjects(rows: seq<Nilai>, mapel: seq<Mapel>): (r: seq<MapelStat>)
    ensures |r| <= TopLimit
    ensures forall i, j :: 0 <= i < j < |r| ==> r[i].rataRata >= r[j].rataRata
    ensures forall e :: e in r ==> e in PerMapel(rows, mapel)
    ensures multiset(r) <= multiset(PerMapel(rows, mapel))
    ensures forall e :: e in PerMapel(rows, mapel) && e !in r ==>
      |r| == TopLimit && forall d :: d in r ==> d.rataRata >= e.rataRata
  {
    var per := PerMapel(rows, mapel);
    assert SortedBy(per, ByRataRataDesc);
    LimitOfSorted(per, ByRataRataDesc, TopLimit);
    Limit(per, TopLimit)
  }

  /** `GET /stats`: the user's subject and grade counts, the mean of the
      user's scores (0 with none), the per-semester chart and the five best
      subjects, and the count of universities reachable from that mean. */
  function Stats(mapel: seq<Mapel>, nilai: seq<Nilai>, jurusan: seq<Jurusan>, userId: int): (r: DashboardStats)
    ensures r.jumlahMapel == |Where(mapel, MapelOwnedBy(userId))|
    ensures r.jumlahNilai == |UserRows(nilai, userId)|
    ensures UserRows(nilai, userId) == [] ==> r.rataRata == 0.0
    ensures UserRows(nilai, userId) != [] ==> MeanOf(r.rataRata, Scores(UserRows(nilai, userId)))
    ensures forall i, j :: 0 <= i < j < |r.nilaiPerSemester| ==> r.nilaiPerSemester[i].semester < r.nilaiPerSemester[j].semester
    ensures |r.topSubjects| <= TopLimit
    ensures forall i, j :: 0 <= i < j < |r.topSubjects| ==> r.topSubjects[i].rataRata >= r.topSubjects[j].rataRata
    ensures forall e :: e in r.topSubjects ==> e in PerMapel(UserRows(nilai, userId), mapel)
    ensures r.nilaiPerSemester == Chart(UserRows(nilai, userId))
    ensures r.topSubjects == TopSubjects(UserRows(nilai, userId), mapel)
    ensures r.jumlahPtn == CountReachablePtn(jurusan, Threshold(r.rataRata))
  {
    var rows := UserRows(nilai, userId);
    var base := DashboardStats(|Where(mapel, MapelOwnedBy(userId))|, |rows|, AverageOrZero(rows),
                               0, Chart(rows), TopSubjects(rows, mapel));
    base.(jumlahPtn := CountReachablePtn(jurusan, Threshold(base.rataRata)))
  }

  /** With no grades the average is 0, so the reachable universities are
      those with a major of passing grade at most 5. */
  lemma NoGradesThreshold(mapel: seq<Mapel>, nilai: seq<Nilai>, jurusan: seq<Jurusan>, userId: int)
    requires forall n :: n in nilai ==> n.userId != userId
    ensures Stats(mapel, nilai, jurusan, userId).rataRata == 0.0
    ensures Stats(mapel, nilai, jurusan, userId).jumlahPtn == |ReachablePtn(jurusan, 5.0)|
  {
    var rows := UserRows(nilai, userId);
    assert rows == [] by {
      WhereNone(nilai, OwnedBy(userId));
    }
    CountReachableSpec(jurusan, 5.0);
  }

  /** `jumlahPtn` counts the universities with a major whose passing grade
      is at most the reported average plus 5. */
  lemma StatsReachable(mapel: seq<Mapel>, nilai: seq<Nilai>, jurusan: seq<Jurusan>, userId: int)
    ensures Stats(mapel, nilai, jurusan, userId).jumlahPtn ==
      |ReachablePtn(jurusan, Threshold(Stats(mapel, nilai, jurusan, userId).rataRata))|
  {
    CountReachableSpec(jurusan, Threshold(Stats(mapel, nilai, jurusan, userId).rataRata));
  }

  // ------------------------------------------------------- GET /activity

  const ByCreatedAtDesc: ((Nilai, Mapel), (Nilai, Mapel)) -> bool :=
    (a: (Nilai, Mapel), b: (Nilai, Mapel)) => a.0.createdAt >= b.0.createdAt

  const MapelByCreatedAtDesc: (Mapel, Mapel) -> bool := (a: Mapel, b: Mapel) => a.createdAt >= b.createdAt

  datatype Activity = Activity(recentNilai: seq<(Nilai, Mapel)>, recentMapel: seq<Mapel>)

  const RecentNilaiLimit: nat := 10
  const RecentMapelLimit: nat := 5

  /** The user's newest grades, each with its subject, at most 10, newest
      first; a grade of the user left out is no newer than any listed. */
  function RecentNilai(mapel: seq<Mapel>, nilai: seq<Nilai>, userId: int): (r: seq<(Nilai, Mapel)>)
    ensures |r| <= RecentNilaiLimit
    ensures forall i, j :: 0 <= i < j < |r| ==> r[i].0.createdAt >= r[j].0.createdAt
    ensures forall p :: p in r ==> p.0 in nilai && p.1 in mapel && p.0.mapelId == p.1.id && p.0.userId == userId
    ensures forall n, m :: n in nilai && m in mapel && n.mapelId == m.id && n.userId == userId && (n, m) !in r ==>
      |r| == RecentNilaiLimit && forall p :: p in r ==> p.0.createdAt >= n.createdAt
    ensures forall p :: multiset(r)[p] <=
                        (if p.0.userId == userId then JoinMultiplicity(nilai, mapel, MapelOfNilai, p) else 0)
  {
    var graded := Where(Join(nilai, mapel, MapelOfNilai), PairOwnedBy(userId));
    ListCount(nilai, mapel, userId);
    TopN(graded, ByCreatedAtDesc, RecentNilaiLimit);
    GradedRows(mapel, nilai, userId);
    Limit(SortBy(graded, ByCreatedAtDesc), RecentNilaiLimit)
  }

  /** The user's newest subjects, at most 5, newest first; a subject of the
      user left out is no newer than any listed. */
  function RecentMapel(mapel: seq<Mapel>, userId: int): (r: seq<Mapel>)
    ensures |r| <= RecentMapelLimit
    ensures forall i, j :: 0 <= i < j < |r| ==> r[i].createdAt >= r[j].createdAt
    ensures forall m :: m in r ==> m in mapel && m.userId == userId
    ensures forall m :: m in mapel && m.userId == userId && m !in r ==>
      |r| == RecentMapelLimit && forall k :: k in r ==> k.createdAt >= m.createdAt
    ensures forall m :: multiset(r)[m] <= (if m.userId == userId then multiset(mapel)[m] else 0)
  {
    var owned := Where(mapel, MapelOwnedBy(userId));
    WhereCount(mapel, MapelOwnedBy(userId));
    TopN(owned, MapelByCreatedAtDesc, RecentMapelLimit);
    Limit(SortBy(owned, MapelByCreatedAtDesc), RecentMapelLimit)
  }

  lemma GradedRows(mapel: seq<Mapel>, nilai: seq<Nilai>, userId: int)
    ensures forall p :: p in Where(Join(nilai, mapel, MapelOfNilai), PairOwnedBy(userId)) <==>
      p.0 in nilai && p.1 in mapel && p.0.mapelId == p.1.id && p.0.userId == userId
  {
  }

  /** `GET /activity`. */
  function RecentActivity(mapel: seq<Mapel>, nilai: seq<Nilai>, userId: int): Activity
  {
    Activity(RecentNilai(mapel, nilai, userId), RecentMapel(mapel, userId))
  }
}
