/** The five tables of the portal's SQLite database (users, mata_pelajaran,
    nilai, ptn, jurusan) as row datatypes, and the database itself as one
    object whose table fields the route handlers update. */
module Schema {
  import opened Wrappers
  import opened Sql

  /** `kategori` of a subject: CHECK(kategori IN ('Wajib', 'Peminatan', 'Lintas Minat')). */
  datatype Kategori = Wajib | Peminatan | LintasMinat

  function KategoriName(k: Kategori): string
  {
    match k
    case Wajib => "Wajib"
    case Peminatan => "Peminatan"
    case LintasMinat => "Lintas Minat"
  }

  /** The CHECK constraint on `kategori`: a text value is accepted exactly when
      it names one of the three categories. */
  function ParseKategori(s: string): (r: Option<Kategori>)
    ensures r.Some? ==> KategoriName(r.value) == s
    ensures r.None? ==> forall k: Kategori :: KategoriName(k) != s
  {
    if s == "Wajib" then Some(Wajib)
    else if s == "Peminatan" then Some(Peminatan)
    else if s == "Lintas Minat" then Some(LintasMinat)
    else None
  }

  /** `kelompok` of a major: CHECK(kelompok IN ('Saintek', 'Soshum', 'Campuran')). */
  datatype Kelompok = Saintek | Soshum | Campuran

  function KelompokName(k: Kelompok): string
  {
    match k
    case Saintek => "Saintek"
    case Soshum => "Soshum"
    case Campuran => "Campuran"
  }

  /** A row of `users`. `password` holds the stored hash; `resetExpires` is a
      time in milliseconds. */
  datatype User = User(id: int, nama: string, email: string, password: string, role: string,
                       isVerified: bool, otpCode: Option<string>,
                       resetToken: Option<string>, resetExpires: Option<int>)

  /** A row of `mata_pelajaran`. `kategori` is None for SQL NULL. */
  datatype Mapel = Mapel(id: int, userId: int, namaMapel: string, kategori: Option<Kategori>,
                         semesterTersedia: string, createdAt: int)

  /** A row of `nilai`: one score of one subject in one semester. */
  datatype Nilai = Nilai(id: int, mapelId: int, userId: int, semester: int, nilai: real, createdAt: int)

  /** A row of `ptn` (a university). */
  datatype Ptn = Ptn(id: int, namaPtn: string, akreditasi: string, lokasi: string, website: string)

  /** A row of `jurusan` (a major of one university). */
  datatype Jurusan = Jurusan(id: int, ptnId: int, namaJurusan: string, kelompok: Kelompok,
                             passingGrade: real, dayaTampung: int)

  function UserKey(u: User): int { u.id }
  function EmailKey(u: User): string { u.email }
  function MapelKey(m: Mapel): int { m.id }
  function NilaiKey(n: Nilai): int { n.id }
  /** The triple a grade row is unique on. */
  function TripleKey(n: Nilai): (int, int, int) { (n.mapelId, n.semester, n.userId) }

  /** `SELECT id FROM mata_pelajaran WHERE id = ? AND user_id = ?` finds a row. */
  predicate OwnsMapel(mapel: seq<Mapel>, userId: int, mapelId: int)
  {
    exists m :: m in mapel && m.id == mapelId && m.userId == userId
  }

  predicate ValidScore(x: real) { 0.0 <= x <= 100.0 }

  /** The users table's constraints: primary key, UNIQUE email, ids below
      the AUTOINCREMENT counter. */
  ghost predicate UsersValid(users: seq<User>, nextId: int)
  {
    && UniqueBy(users, UserKey) && UniqueBy(users, EmailKey)
    && 0 < nextId && (forall u :: u in users ==> u.id < nextId)
  }

  ghost predicate MapelValid(mapel: seq<Mapel>, nextId: int)
  {
    && UniqueBy(mapel, MapelKey)
    && 0 < nextId && (forall m :: m in mapel ==> m.id < nextId)
  }

  /** The grade table's constraints: primary key, ids below the counter,
      every row pointing at a subject of the same user (the foreign key
      together with the owner check every insert makes), at most one row per
      (subject, semester, user), and every stored score in [0, 100]. */
  ghost predicate NilaiValid(nilai: seq<Nilai>, nextId: int, mapel: seq<Mapel>)
  {
    && UniqueBy(nilai, NilaiKey) && UniqueBy(nilai, TripleKey)
    && 0 < nextId && (forall n :: n in nilai ==> n.id < nextId)
    && (forall n :: n in nilai ==> OwnsMapel(mapel, n.userId, n.mapelId))
    && (forall n :: n in nilai ==> ValidScore(n.nilai))
  }

  /** The database. Each table is a sequence of rows; the `next...Id` fields
      are the AUTOINCREMENT counters that give `lastInsertRowid`. */
  class Db {
    var users: seq<User>
    var mapel: seq<Mapel>
    var nilai: seq<Nilai>
    var ptn: seq<Ptn>
    var jurusan: seq<Jurusan>
    var nextUserId: int
    var nextMapelId: int
    var nextNilaiId: int

    ghost predicate Valid()
      reads this
    {
      && UsersValid(users, nextUserId)
      && MapelValid(mapel, nextMapelId)
      && NilaiValid(nilai, nextNilaiId, mapel)
    }

    /** A fresh database holding only the seeded university catalog. */
    constructor (ptn: seq<Ptn>, jurusan: seq<Jurusan>)
      ensures Valid()
      ensures this.ptn == ptn && this.jurusan == jurusan
      ensures users == [] && mapel == [] && nilai == []
      ensures nextUserId == 1 && nextMapelId == 1 && nextNilaiId == 1
    {
      this.ptn := ptn;
      this.jurusan := jurusan;
      users, mapel, nilai := [], [], [];
      nextUserId, nextMapelId, nextNilaiId := 1, 1, 1;
    }
  }
}
