/** routes/mapel.js: the user's subjects. The two reads are functions of the
    tables; create, update and delete are methods on the database object,
    and delete also removes the subject's grades, as the foreign key's
    ON DELETE CASCADE does. */
module MapelRoute {
  import opened Wrappers
  import opened Sql
  import opened Schema
  import opened NilaiRoute

  function MapelOwnedBy(userId: int): Mapel -> bool { (m: Mapel) => m.userId == userId }

  function InMapel(mapelId: int): Nilai -> bool { (n: Nilai) => n.mapelId == mapelId }

  /** `(SELECT AVG(n.nilai) FROM nilai n WHERE n.mapel_id = mp.id)`: NULL for
      a subject without grades, otherwise the mean of its scores. */
  function MapelAverage(nilai: seq<Nilai>, mapelId: int): (r: Option<real>)
    ensures r.None? <==> forall n :: n in nilai ==> n.mapelId != mapelId
    ensures r.Some? ==> MeanOf(r.value, Scores(Where(nilai, InMapel(mapelId))))
  {
    var g := Where(nilai, InMapel(mapelId));
    assert forall n :: n in nilai && n.mapelId == mapelId ==> n in g;
    assert g != [] ==> g[0] in g;
    Avg(Scores(g))
  }

  // --------------------------------------------------------------- GET /

  /** A subject with its average. */
  datatype MapelView = MapelView(mapel: Mapel, rataRata: Option<real>)

  const ByNamaMapel: (MapelView, MapelView) -> bool :=
    (a: MapelView, b: MapelView) => StrLe(a.mapel.namaMapel, b.mapel.namaMapel)

  lemma NamaMapelIsPreorder()
    ensures Total(ByNamaMapel) && Transitive(ByNamaMapel)
  {
    forall a: MapelView, b: MapelView ensures ByNamaMapel(a, b) || ByNamaMapel(b, a) {
      StrLeTotal(a.mapel.namaMapel, b.mapel.namaMapel);
    }
    forall a: MapelView, b: MapelView, c: MapelView | ByNamaMapel(a, b) && ByNamaMapel(b, c)
      ensures ByNamaMapel(a, c)
    {
      StrLeTransitive(a.mapel.namaMapel, b.mapel.namaMapel, c.mapel.namaMapel);
    }
  }

  function Views(mapel: seq<Mapel>, nilai: seq<Nilai>): (r: seq<MapelView>)
    ensures |r| == |mapel|
    ensures forall v :: v in r <==> v.mapel in mapel && v.rataRata == MapelAverage(nilai, v.mapel.id)
  {
    var r := seq(|mapel|, i requires 0 <= i < |mapel| => MapelView(mapel[i], MapelAverage(nilai, mapel[i].id)));
    assert forall v :: v in r ==> v.mapel in mapel by {
      forall v | v in r ensures v.mapel in mapel {
        var i :| 0 <= i < |r| && r[i] == v;
      }
    }
    assert forall m :: m in mapel ==> MapelView(m, MapelAverage(nilai, m.id)) in r by {
      forall m | m in mapel ensures MapelView(m, MapelAverage(nilai, m.id)) in r {
        var i :| 0 <= i < |mapel| && mapel[i] == m;
        assert r[i] == MapelView(m, MapelAverage(nilai, m.id));
      }
    }
    r
  }

  /** `GET /`: every subject of the user and no other, each with the
      average of its grades, ordered by name. */
  function ListMapel(mapel: seq<Mapel>, nilai: seq<Nilai>, userId: int): (r: seq<MapelView>)
    ensures forall v :: v in r <==> v.mapel in mapel && v.mapel.userId == userId && v.rataRata == MapelAverage(nilai, v.mapel.id)
    ensures |r| == |Where(mapel, MapelOwnedBy(userId))|
    ensures SortedBy(r, ByNamaMapel)
  {
    var views := Views(Where(mapel, MapelOwnedBy(userId)), nilai);
    NamaMapelIsPreorder();
    SortBySorted(views, ByNamaMapel);
    SortByMembers(views, ByNamaMapel);
    SortBy(views, ByNamaMapel)
  }

  // ------------------------------------------------------------ GET /:id

  /** `SELECT * FROM mata_pelajaran WHERE id = ? AND user_id = ?` (`.get()`:
      the first such row). */
  function FindOwned(mapel: seq<Mapel>, id: int, userId: int): (r: Option<Mapel>)
    ensures r.None? <==> !OwnsMapel(mapel, userId, id)
    ensures r.Some? ==> r.value in mapel && r.value.id == id && r.value.userId == userId
  {
    if mapel == [] then None
    else if mapel[0].id == id && mapel[0].userId == userId then Some(mapel[0])
    else
      assert mapel == [mapel[0]] + mapel[1..];
      FindOwned(mapel[1..], id, userId)
  }

  const NilaiBySemester: (Nilai, Nilai) -> bool := (a: Nilai, b: Nilai) => a.semester <= b.semester

  /** `GET /:id`: not found unless the subject is the user's; otherwise the
      subject and all its grades, ordered by semester. */
  function GetMapel(mapel: seq<Mapel>, nilai: seq<Nilai>, id: int, userId: int): (r: Option<(Mapel, seq<Nilai>)>)
    ensures r.None? <==> !OwnsMapel(mapel, userId, id)
    ensures r.Some? ==> r.value.0 in mapel && r.value.0.id == id && r.value.0.userId == userId
    ensures r.Some? ==> forall n :: n in r.value.1 <==> n in nilai && n.mapelId == id
    ensures r.Some? ==> forall n :: multiset(r.value.1)[n] == (if n.mapelId == id then multiset(nilai)[n] else 0)
    ensures r.Some? ==> SortedBy(r.value.1, NilaiBySemester)
  {
    match FindOwned(mapel, id, userId)
    case None => None
    case Some(m) =>
      var g := Where(nilai, InMapel(id));
      WhereCount(nilai, InMapel(id));
      SortBySorted(g, NilaiBySemester);
      SortByMembers(g, NilaiBySemester);
      Some((m, SortBy(g, NilaiBySemester)))
  }

  // -------------------------------------------------------------- POST /

  /** The request body of create and update; None is a missing field. */
  datatype MapelRequest = MapelRequest(namaMapel: Option<string>, kategori: Option<string>,
                                       semesterTersedia: Option<string>)

  /** `semester_tersedia || '1,2,3,4,5'`. */
  const DefaultSemesters: string := "1,2,3,4,5"

  function SemestersOf(req: MapelRequest): string
  {
    if Falsy(req.semesterTersedia) then DefaultSemesters else req.semesterTersedia.value
  }

  /** `kategori || 'Wajib'`. */
  function CreateKategoriText(req: MapelRequest): string
  {
    if Falsy(req.kategori) then "Wajib" else req.kategori.value
  }

  datatype CreateResult =
    | NamaRequired
    | CreateFailed
    | Created(id: int, namaMapel: string, kategori: Kategori, semesterTersedia: string)

  /** `POST /`: a name is required; category and semesters get their
      defaults; a category outside the CHECK list makes the INSERT fail (the
      500 response) with nothing stored. On success one row is appended
      with the next id, and the response repeats the stored values. */
  method Create(db: Db, userId: int, req: MapelRequest, now: int) returns (res: CreateResult)
    requires db.Valid()
    modifies db`mapel, db`nextMapelId
    ensures db.Valid()
    ensures res == NamaRequired <==> Falsy(req.namaMapel)
    ensures res == CreateFailed <==> !Falsy(req.namaMapel) && ParseKategori(CreateKategoriText(req)).None?
    ensures res.Created? ==>
      && res.id == old(db.nextMapelId)
      && res.namaMapel == req.namaMapel.value
      && KategoriName(res.kategori) == CreateKategoriText(req)
      && res.semesterTersedia == SemestersOf(req)
      && db.mapel == old(db.mapel) + [Mapel(res.id, userId, res.namaMapel, Some(res.kategori), res.semesterTersedia, now)]
      && db.nextMapelId == old(db.nextMapelId) + 1
    ensures !res.Created? ==> db.mapel == old(db.mapel) && db.nextMapelId == old(db.nextMapelId)
  {
    if Falsy(req.namaMapel) {
      return NamaRequired;
    }
    var kategori := ParseKategori(CreateKategoriText(req));
    if kategori.None? {
      return CreateFailed;
    }
    var m := Mapel(db.nextMapelId, userId, req.namaMapel.value, kategori, SemestersOf(req), now);
    UniqueSnoc(db.mapel, m, MapelKey);
    ghost var oldMapel := db.mapel;
    db.mapel := db.mapel + [m];
    db.nextMapelId := db.nextMapelId + 1;
    assert forall n :: n in db.nilai ==> OwnsMapel(db.mapel, n.userId, n.mapelId) by {
      forall n | n in db.nilai ensures OwnsMapel(db.mapel, n.userId, n.mapelId) {
        assert OwnsMapel(oldMapel, n.userId, n.mapelId);
        var w :| w in oldMapel && w.id == n.mapelId && w.userId == n.userId;
        assert w in db.mapel;
      }
    }
    res := Created(m.id, m.namaMapel, kategori.value, m.semesterTersedia);
  }

  // ----------------------------------------------------------- PUT /:id

  datatype UpdateResult = UpdateNotFound | UpdateFailed | UpdatedMapel

  /** The new `kategori` column of an update: missing is NULL. */
  function UpdateKategori(req: MapelRequest): Option<Option<Kategori>>
  {
    match req.kategori
    case None => Some(None)
    case Some(s) => if ParseKategori(s).Some? then Some(ParseKategori(s)) else None
  }

  /** `UPDATE mata_pelajaran SET nama_mapel = ?, kategori = ?,
      semester_tersedia = ? WHERE id = ?`. The ensures only describe the rows
      one by one; `RewriteAt` and `RewriteMissing` state what the update means. */
  function Rewrite(mapel: seq<Mapel>, id: int, nama: string, kategori: Option<Kategori>, sem: string): (r: seq<Mapel>)
    ensures |r| == |mapel|
    ensures forall i :: 0 <= i < |r| ==>
      r[i] == if mapel[i].id == id then mapel[i].(namaMapel := nama, kategori := kategori, semesterTersedia := sem) else mapel[i]
  {
    seq(|mapel|, i requires 0 <= i < |mapel| =>
      if mapel[i].id == id then mapel[i].(namaMapel := nama, kategori := kategori, semesterTersedia := sem) else mapel[i])
  }

  /** With ids unique, the update rewrites the three columns of exactly the
      one row holding the id, in place. */
  lemma RewriteAt(mapel: seq<Mapel>, k: int, nama: string, kategori: Option<Kategori>, sem: string)
    requires UniqueBy(mapel, MapelKey) && 0 <= k < |mapel|
    ensures Rewrite(mapel, mapel[k].id, nama, kategori, sem)
         == mapel[k := mapel[k].(namaMapel := nama, kategori := kategori, semesterTersedia := sem)]
  {
    var r := Rewrite(mapel, mapel[k].id, nama, kategori, sem);
    var s := mapel[k := mapel[k].(namaMapel := nama, kategori := kategori, semesterTersedia := sem)];
    forall i | 0 <= i < |mapel| ensures r[i] == s[i] {
      if i != k {
        assert MapelKey(mapel[i]) != MapelKey(mapel[k]);
      }
    }
  }

  /** An update whose id matches no row changes nothing. */
  lemma RewriteMissing(mapel: seq<Mapel>, id: int, nama: string, kategori: Option<Kategori>, sem: string)
    requires forall m :: m in mapel ==> m.id != id
    ensures Rewrite(mapel, id, nama, kategori, sem) == mapel
  {
    var r := Rewrite(mapel, id, nama, kategori, sem);
    forall i | 0 <= i < |mapel| ensures r[i] == mapel[i] {
      assert mapel[i] in mapel;
    }
  }

  /** An update keeps the tables' constraints: it changes no id and no
      owner, so every grade still points at a subject of its user. */
  lemma RewriteValid(mapel: seq<Mapel>, nextId: int, nilai: seq<Nilai>, nextNilaiId: int,
                     id: int, nama: string, kategori: Option<Kategori>, sem: string)
    requires MapelValid(mapel, nextId) && NilaiValid(nilai, nextNilaiId, mapel)
    ensures MapelValid(Rewrite(mapel, id, nama, kategori, sem), nextId)
    ensures NilaiValid(nilai, nextNilaiId, Rewrite(mapel, id, nama, kategori, sem))
  {
    var r := Rewrite(mapel, id, nama, kategori, sem);
    assert forall i :: 0 <= i < |r| ==> MapelKey(r[i]) == MapelKey(mapel[i]);
    forall m | m in r ensures m.id < nextId {
      var i :| 0 <= i < |r| && r[i] == m;
      assert mapel[i] in mapel;
    }
    forall n | n in nilai ensures OwnsMapel(r, n.userId, n.mapelId) {
      var w :| w in mapel && w.id == n.mapelId && w.userId == n.userId;
      var i :| 0 <= i < |mapel| && mapel[i] == w;
      assert r[i] in r;
    }
  }

  /** `PUT /:id`: not found unless the subject is the user's. Otherwise its
      name, category and semesters are replaced: the semesters fall back to
      the default, the category does not (missing becomes NULL). A missing
      name (NOT NULL) or a category outside the CHECK list makes the UPDATE
      fail with nothing changed. */
  method Update(db: Db, userId: int, id: int, req: MapelRequest) returns (res: UpdateResult)
    requires db.Valid()
    modifies db`mapel
    ensures db.Valid()
    ensures res == UpdateNotFound <==> !OwnsMapel(old(db.mapel), userId, id)
    ensures res == UpdateFailed <==>
      OwnsMapel(old(db.mapel), userId, id) && (req.namaMapel.None? || UpdateKategori(req).None?)
    ensures res == UpdatedMapel ==>
      db.mapel == Rewrite(old(db.mapel), id, req.namaMapel.value, UpdateKategori(req).value, SemestersOf(req))
    ensures res != UpdatedMapel ==> db.mapel == old(db.mapel)
  {
    if FindOwned(db.mapel, id, userId).None? {
      return UpdateNotFound;
    }
    if req.namaMapel.None? || UpdateKategori(req).None? {
      return UpdateFailed;
    }
    RewriteValid(db.mapel, db.nextMapelId, db.nilai, db.nextNilaiId, id, req.namaMapel.value, UpdateKategori(req).value, SemestersOf(req));
    db.mapel := Rewrite(db.mapel, id, req.namaMapel.value, UpdateKategori(req).value, SemestersOf(req));
    res := UpdatedMapel;
  }

  /** Only the updated subject changes; an update without a category clears
      it. */
  lemma RewriteOnlyTarget(mapel: seq<Mapel>, id: int, req: MapelRequest)
    requires UniqueBy(mapel, MapelKey) && req.namaMapel.Some? && UpdateKategori(req).Some?
    ensures var r := Rewrite(mapel, id, req.namaMapel.value, UpdateKategori(req).value, SemestersOf(req));
      && (forall m :: m in mapel && m.id != id ==> m in r)
      && (forall m :: m in r && m.id == id ==>
            m.namaMapel == req.namaMapel.value && m.semesterTersedia == SemestersOf(req)
            && (req.kategori.None? ==> m.kategori.None?))
  {
    var r := Rewrite(mapel, id, req.namaMapel.value, UpdateKategori(req).value, SemestersOf(req));
    forall m | m in mapel && m.id != id ensures m in r {
      var i :| 0 <= i < |mapel| && mapel[i] == m;
      assert r[i] == m;
    }
  }

  // -------------------------------------------------------- DELETE /:id

  datatype DeleteMapelResult = MapelDeleted | DeleteNotFound

  function NotInMapel(mapelId: int): Nilai -> bool { (n: Nilai) => n.mapelId != mapelId }

  /** Removing a subject together with its grades keeps the constraints. */
  lemma CascadeValid(mapel: seq<Mapel>, nextId: int, nilai: seq<Nilai>, nextNilaiId: int, id: int)
    requires MapelValid(mapel, nextId) && NilaiValid(nilai, nextNilaiId, mapel)
    ensures MapelValid(Where(mapel, KeyIsNot(MapelKey, id)), nextId)
    ensures NilaiValid(Where(nilai, NotInMapel(id)), nextNilaiId, Where(mapel, KeyIsNot(MapelKey, id)))
  {
    var ms := Where(mapel, KeyIsNot(MapelKey, id));
    var ns := Where(nilai, NotInMapel(id));
    WhereKeepsUnique(mapel, KeyIsNot(MapelKey, id), MapelKey);
    WhereKeepsUnique(nilai, NotInMapel(id), NilaiKey);
    WhereKeepsUnique(nilai, NotInMapel(id), TripleKey);
    forall n | n in ns ensures OwnsMapel(ms, n.userId, n.mapelId) {
      var w :| w in mapel && w.id == n.mapelId && w.userId == n.userId;
      assert KeyIsNot(MapelKey, id)(w);
      assert w in ms;
    }
  }

  /** `DELETE /:id`: not found unless the subject is the user's; otherwise
      the subject row is removed and, by the cascade, every grade of it. */
  method Delete(db: Db, userId: int, id: int) returns (res: DeleteMapelResult)
    requires db.Valid()
    modifies db`mapel, db`nilai
    ensures db.Valid()
    ensures res == MapelDeleted <==> OwnsMapel(old(db.mapel), userId, id)
    ensures res == MapelDeleted ==>
      && db.mapel == Where(old(db.mapel), KeyIsNot(MapelKey, id))
      && db.nilai == Where(old(db.nilai), NotInMapel(id))
      && |db.mapel| == |old(db.mapel)| - 1
    ensures res == DeleteNotFound ==> db.mapel == old(db.mapel) && db.nilai == old(db.nilai)
  {
    if FindOwned(db.mapel, id, userId).None? {
      return DeleteNotFound;
    }
    CascadeValid(db.mapel, db.nextMapelId, db.nilai, db.nextNilaiId, id);
    WhereRemovesOne(db.mapel, MapelKey, id);
    db.mapel := Where(db.mapel, KeyIsNot(MapelKey, id));
    db.nilai := Where(db.nilai, NotInMapel(id));
    res := MapelDeleted;
  }

  /** After a delete no grade of the subject is left and every grade of
      another subject is kept. */
  lemma CascadeRemovesExactly(nilai: seq<Nilai>, id: int)
    ensures forall n :: n in Where(nilai, NotInMapel(id)) <==> n in nilai && n.mapelId != id
    ensures MapelAverage(Where(nilai, NotInMapel(id)), id).None?
  {
  }
}
