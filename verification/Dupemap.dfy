/** Duplicate elimination (parse_mode, scan_file and the scan loop of src/dupemap.c). */
module Dupemap {
  import opened Bits
  import opened Checksum

  /** The operations named on the command line. */
  datatype Ops = Ops(scan: bool, report: bool, delete: bool)

  /** enum mode: the kind of database, and what to do with the files that are found. */
  datatype Database = ReadDb | WriteDb | TempDb
  datatype Mode = Mode(db: Database, report: bool, delete: bool)

  /** The table op2mode. */
  function ParseMode(ops: Ops, hasDb: bool): (r: Option<Mode>)
    ensures r.Some? ==> (r.value.db == TempDb <==> !hasDb)
    ensures r.Some? ==> r.value.report == ops.report && r.value.delete == ops.delete
    ensures r.Some? && hasDb ==> (r.value.db == WriteDb <==> ops.scan) && !(ops.scan && ops.delete)
    ensures r.None? <==> (!ops.report && !ops.delete && !(ops.scan && hasDb)) || (hasDb && ops.scan && ops.delete)
  {
    match (hasDb, ops)
    case (true,  Ops(true,  false, false)) => Some(Mode(WriteDb, false, false))
    case (true,  Ops(true,  true,  false)) => Some(Mode(WriteDb, true,  false))
    case (true,  Ops(false, true,  false)) => Some(Mode(ReadDb,  true,  false))
    case (true,  Ops(false, false, true))  => Some(Mode(ReadDb,  false, true))
    case (true,  Ops(false, true,  true))  => Some(Mode(ReadDb,  true,  true))
    case (false, Ops(_,     true,  false)) => Some(Mode(TempDb,  true,  false))
    case (false, Ops(_,     false, true))  => Some(Mode(TempDb,  false, true))
    case (false, Ops(_,     true,  true))  => Some(Mode(TempDb,  true,  true))
    case _ => None
  }

  /** A regular file. */
  datatype File = File(name: string, content: seq<bv8>, readable: bool)

  /** The database holds checksum_t values as keys. */
  datatype Key = Key(crc: bv64, filesize: nat)

  function KeyOf(f: File): Key {
    Key(Cksum(f.content) as bv64, |f.content|)
  }

  datatype Limits = Limits(minSize: int, maxSize: int)

  predicate Qualifies(lim: Limits, f: File) {
    |f.content| >= lim.minSize && (lim.maxSize > 0 ==> |f.content| <= lim.maxSize) && f.readable
  }

  /** An earlier qualifying file, or the database as it was at first, has the key of
      file i. */
  predicate SeenBefore<K(==)>(key: File -> K, lim: Limits, known: set<K>, files: seq<File>, i: nat)
    requires i < |files|
  {
    key(files[i]) in known
    || exists j | 0 <= j < i :: Qualifies(lim, files[j]) && key(files[j]) == key(files[i])
  }

  /** The history view: is file i one of those to be reported or deleted? */
  predicate ActsOn<K(==)>(key: File -> K, db: Database, lim: Limits, known: set<K>, files: seq<File>, i: nat)
    requires i < |files|
  {
    Qualifies(lim, files[i]) &&
    match db
    case WriteDb => true
    case ReadDb => key(files[i]) in known
    case TempDb => SeenBefore(key, lim, known, files, i)
  }

  /** The names of the files among the first n that are acted on, in order. */
  function ActedNames<K(==)>(key: File -> K, db: Database, lim: Limits, known: set<K>, files: seq<File>, n: nat): seq<string>
    requires n <= |files|
  {
    if n == 0 then []
    else
      ActedNames(key, db, lim, known, files, n - 1) +
      (if ActsOn(key, db, lim, known, files, n - 1) then [files[n - 1].name] else [])
  }

  function Keys<K(==)>(key: File -> K, lim: Limits, files: seq<File>): set<K> {
    set f | f in files && Qualifies(lim, f) :: key(f)
  }

  /** The database after the first n files. */
  function DbAfter<K(==)>(key: File -> K, db: Database, lim: Limits, known: set<K>, files: seq<File>, n: nat): set<K>
    requires n <= |files|
  {
    if db == ReadDb then known else known + Keys(key, lim, files[..n])
  }

  /** What scan_file decides on the strength of the database alone. */
  predicate Acts<K(==)>(key: File -> K, db: Database, lim: Limits, now: set<K>, f: File) {
    Qualifies(lim, f) && (db == WriteDb || key(f) in now)
  }

  function Noted(names: seq<string>, when: bool, more: seq<string>): seq<string> {
    if when then names + more else names
  }

  lemma NotedStep(names: seq<string>, when: bool, more: seq<string>, acts: bool, name: string)
    ensures Noted(Noted(names, when, more), acts && when, [name]) == Noted(names, when, more + (if acts then [name] else []))
  {
    assert names + more + [name] == names + (more + [name]);
  }

  /** The keys of the files before i say whether file i was seen before. */
  lemma KeysOfPrefix<K(!new)>(key: File -> K, lim: Limits, known: set<K>, files: seq<File>, i: nat)
    requires i < |files|
    ensures key(files[i]) in known + Keys(key, lim, files[..i]) <==> SeenBefore(key, lim, known, files, i)
    ensures Keys(key, lim, files[..i + 1]) == Keys(key, lim, files[..i]) + (if Qualifies(lim, files[i]) then {key(files[i])} else {})
  {
    var k := key(files[i]);
    if k in Keys(key, lim, files[..i]) {
      var f :| f in files[..i] && Qualifies(lim, f) && key(f) == k;
      var j :| 0 <= j < i && files[..i][j] == f;
      assert files[j] == f;
    }
    if exists j | 0 <= j < i :: Qualifies(lim, files[j]) && key(files[j]) == k {
      var j :| 0 <= j < i && Qualifies(lim, files[j]) && key(files[j]) == k;
      assert files[..i][j] in files[..i];
    }
    assert files[..i + 1] == files[..i] + [files[i]];
  }

  /** The decision made on the database is the one that the history calls for. */
  lemma OneMoreFile<K(!new)>(key: File -> K, db: Database, lim: Limits, known: set<K>, files: seq<File>, i: nat)
    requires i < |files|
    ensures var now := DbAfter(key, db, lim, known, files, i);
      && DbAfter(key, db, lim, known, files, i + 1) == (if db != ReadDb && Qualifies(lim, files[i]) then now + {key(files[i])} else now)
      && ActedNames(key, db, lim, known, files, i + 1) == ActedNames(key, db, lim, known, files, i) +
           (if Acts(key, db, lim, now, files[i]) then [files[i].name] else [])
  {
    KeysOfPrefix(key, lim, known, files, i);
  }

  lemma {:induction false} NamedWhenActedOn<K(!new)>(key: File -> K, db: Database, lim: Limits, known: set<K>, files: seq<File>, n: nat, i: nat)
    requires n <= |files| && i < |files| && DistinctNames(files)
    ensures files[i].name in ActedNames(key, db, lim, known, files, n) <==> i < n && ActsOn(key, db, lim, known, files, i)
  {
    if n == 0 {
    } else {
      NamedWhenActedOn(key, db, lim, known, files, n - 1, i);
      assert files[i].name == files[n - 1].name <==> i == n - 1;
    }
  }

  ghost predicate DistinctNames(files: seq<File>) {
    forall i, j | 0 <= i < j < |files| :: files[i].name != files[j].name
  }

  ghost predicate IsFirstOfKey<K>(key: File -> K, lim: Limits, files: seq<File>, i: nat)
    requires i < |files|
  {
    Qualifies(lim, files[i])
    && forall j | 0 <= j < i && Qualifies(lim, files[j]) :: key(files[j]) != key(files[i])
  }

  /** Deleting with a temporary database: of the qualifying files the first of each key,
      and no other, survives. */
  lemma FirstOfEachKeySurvives<K(!new)>(key: File -> K, lim: Limits, files: seq<File>, i: nat)
    requires i < |files| && DistinctNames(files) && Qualifies(lim, files[i])
    ensures files[i].name !in ActedNames(key, TempDb, lim, {}, files, |files|) <==> IsFirstOfKey(key, lim, files, i)
  {
    NamedWhenActedOn(key, TempDb, lim, {}, files, |files|, i);
  }

  /** No key is lost: for every deleted file an earlier one with its checksum and size is
      kept. */
  lemma {:induction false} KeptRepresentative<K(!new)>(key: File -> K, lim: Limits, files: seq<File>, i: nat) returns (k: nat)
    requires i < |files| && DistinctNames(files) && Qualifies(lim, files[i])
    ensures k <= i && key(files[k]) == key(files[i])
    ensures Qualifies(lim, files[k]) && files[k].name !in ActedNames(key, TempDb, lim, {}, files, |files|)
    decreases i
  {
    FirstOfEachKeySurvives(key, lim, files, i);
    if IsFirstOfKey(key, lim, files, i) {
      k := i;
    } else {
      var j :| 0 <= j < i && Qualifies(lim, files[j]) && key(files[j]) == key(files[i]);
      k := KeptRepresentative(key, lim, files, j);
    }
  }

  /** A scan of one path followed by a deletion in another, each with its own size limits:
      exactly the files whose key was scanned are deleted. */
  lemma ScanThenDelete<K(!new)>(key: File -> K, scanLim: Limits, lim: Limits, scanned: seq<File>, others: seq<File>, i: nat)
    requires i < |others| && DistinctNames(others)
    ensures others[i].name in ActedNames(key, ReadDb, lim, Keys(key, scanLim, scanned), others, |others|)
       <==> Qualifies(lim, others[i]) && exists f :: f in scanned && Qualifies(scanLim, f) && key(f) == key(others[i])
  {
    NamedWhenActedOn(key, ReadDb, lim, Keys(key, scanLim, scanned), others, |others|, i);
  }

  /** Equal checksum and size do not mean equal content: here the only copy of y goes. */
  lemma DeletesADifferentFile() returns (x: seq<bv8>, y: seq<bv8>)
    ensures x != y
    ensures ActedNames(KeyOf, TempDb, Limits(1, 0), {}, [File("a", x, true), File("b", y, true)], 2) == ["b"]
  {
    x, y := [0, 0, 0, 0, 0], [1, 4, 0xC1, 0x1D, 0xB7];
    assert x[0] != y[0];
    FiveByteBurstMissed();
    var a, b := File("a", x, true), File("b", y, true);
    SameKeyWhenSameCksum(a, b);
    SecondIsDeleted(KeyOf, a, b, Limits(1, 0));
  }

  lemma SecondIsDeleted<K>(key: File -> K, a: File, b: File, lim: Limits)
    requires Qualifies(lim, a) && Qualifies(lim, b) && key(a) == key(b)
    ensures ActedNames(key, TempDb, lim, {}, [a, b], 2) == [b.name]
  {
    var files := [a, b];
    assert !SeenBefore(key, lim, {}, files, 0) && SeenBefore(key, lim, {}, files, 1) by {
      assert Qualifies(lim, files[0]) && key(files[0]) == key(files[1]);
    }
    assert ActedNames(key, TempDb, lim, {}, files, 1) == [];
  }

  /** For every deleted file an earlier one of the same size is kept, and if the two differ
      at all, the differences are not within any four consecutive bytes. */
  lemma DeletedDiffersWidely(lim: Limits, files: seq<File>, i: nat) returns (k: nat)
    requires i < |files| && DistinctNames(files)
    requires files[i].name in ActedNames(KeyOf, TempDb, lim, {}, files, |files|)
    ensures k < i && files[k].name !in ActedNames(KeyOf, TempDb, lim, {}, files, |files|)
    ensures |files[k].content| == |files[i].content|
    ensures files[k].content != files[i].content ==>
      forall x, y | 0 <= x <= y <= |files[i].content| && y - x <= 4 :: !DifferOnlyWithin(files[k].content, files[i].content, x, y)
  {
    NamedWhenActedOn(KeyOf, TempDb, lim, {}, files, |files|, i);
    k := KeptRepresentative(KeyOf, lim, files, i);
    var a, b := files[k].content, files[i].content;
    assert Cksum(a) == Cksum(b) by {
      SameKeySameCksum(files[k], files[i]);
    }
    if a != b {
      forall x, y | 0 <= x <= y <= |b| && y - x <= 4 ensures !DifferOnlyWithin(a, b, x, y) {
        if DifferOnlyWithin(a, b, x, y) {
          ByteBurstDetected(a, b, x, y);
        }
      }
    }
  }

  ghost predicate DifferOnlyWithin(a: seq<bv8>, b: seq<bv8>, x: nat, y: nat)
    requires |a| == |b| && x <= y <= |a|
  {
    a[..x] == b[..x] && a[y..] == b[y..]
  }

  lemma SameKeySameCksum(a: File, b: File)
    requires KeyOf(a) == KeyOf(b)
    ensures Cksum(a.content) == Cksum(b.content) && |a.content| == |b.content|
  {
  }

  // ---- which contents are lost ----

  /** A qualifying file with the content of file i has not been deleted. */
  ghost predicate HasKeptCopy(lim: Limits, files: seq<File>, gone: seq<string>, i: nat)
    requires i < |files|
  {
    exists j | 0 <= j < |files| :: IsKeptCopy(lim, files, gone, j, files[i].content)
  }

  predicate IsKeptCopy(lim: Limits, files: seq<File>, gone: seq<string>, j: nat, content: seq<bv8>)
    requires j < |files|
  {
    Qualifies(lim, files[j]) && files[j].name !in gone && files[j].content == content
  }

  ghost predicate DependsOnContent<K>(key: File -> K) {
    forall f: File, g: File :: f.content == g.content ==> key(f) == key(g)
  }

  /** File j is the first of the key of file i, but has another content. */
  ghost predicate Displaces<K>(key: File -> K, lim: Limits, files: seq<File>, j: nat, i: nat)
    requires i < |files| && j < |files|
  {
    IsFirstOfKey(key, lim, files, j) && key(files[j]) == key(files[i]) && files[j].content != files[i].content
  }

  lemma LostExactlyWhenDisplaced<K(!new)>(key: File -> K, lim: Limits, files: seq<File>, i: nat)
    requires i < |files| && DistinctNames(files) && Qualifies(lim, files[i]) && DependsOnContent(key)
    ensures HasKeptCopy(lim, files, ActedNames(key, TempDb, lim, {}, files, |files|), i)
       <==> !exists j | 0 <= j < i :: Displaces(key, lim, files, j, i)
  {
    var gone := ActedNames(key, TempDb, lim, {}, files, |files|);
    if j :| 0 <= j < i && Displaces(key, lim, files, j, i) {
      forall k | 0 <= k < |files| ensures !IsKeptCopy(lim, files, gone, k, files[i].content) {
        if IsKeptCopy(lim, files, gone, k, files[i].content) {
          FirstOfEachKeySurvives(key, lim, files, k);
        }
      }
    } else {
      var k := KeptRepresentative(key, lim, files, i);
      FirstOfEachKeySurvives(key, lim, files, k);
      assert k < i ==> !Displaces(key, lim, files, k, i);
      assert IsKeptCopy(lim, files, gone, k, files[i].content);
    }
  }

  /** The same in terms of the contents alone. */
  ghost predicate DisplacedBy(lim: Limits, files: seq<File>, j: nat, i: nat)
    requires j < i < |files|
  {
    && Qualifies(lim, files[j]) && Collide(files[j].content, files[i].content) && files[j].content != files[i].content
    && forall k | 0 <= k < j && Qualifies(lim, files[k]) :: !Collide(files[k].content, files[i].content)
  }

  lemma SameKeyExactlyWhen(a: File, b: File)
    ensures KeyOf(a) == KeyOf(b) <==> Collide(a.content, b.content)
  {
    if |a.content| == |b.content| {
      CksumCollidesExactlyWhen(a.content, b.content);
      SameKeyWhenSameCksum(a, b);
    }
  }

  lemma SameKeyWhenSameCksum(a: File, b: File)
    requires |a.content| == |b.content|
    ensures KeyOf(a) == KeyOf(b) <==> Cksum(a.content) == Cksum(b.content)
  {
    if KeyOf(a) == KeyOf(b) {
      SameKeySameCksum(a, b);
    }
  }

  /** The content of a qualifying file is lost, no copy of it being kept, exactly when the
      first qualifying file that differs from it by a multiple of the generator polynomial,
      zero included, comes earlier and is a different one. */
  lemma ContentLostExactlyWhen(lim: Limits, files: seq<File>, i: nat)
    requires i < |files| && DistinctNames(files) && Qualifies(lim, files[i])
    ensures !HasKeptCopy(lim, files, ActedNames(KeyOf, TempDb, lim, {}, files, |files|), i)
       <==> exists j | 0 <= j < i :: DisplacedBy(lim, files, j, i)
  {
    KeyDependsOnContent();
    LostExactlyWhenDisplaced(KeyOf, lim, files, i);
    forall j | 0 <= j < i ensures Displaces(KeyOf, lim, files, j, i) <==> DisplacedBy(lim, files, j, i) {
      DisplacedExactlyWhen(lim, files, j, i);
    }
  }

  lemma KeyDependsOnContent()
    ensures DependsOnContent(KeyOf)
  {
    forall f: File, g: File | f.content == g.content ensures KeyOf(f) == KeyOf(g) {
    }
  }

  lemma DisplacedExactlyWhen(lim: Limits, files: seq<File>, j: nat, i: nat)
    requires j < i < |files|
    ensures Displaces(KeyOf, lim, files, j, i) <==> DisplacedBy(lim, files, j, i)
  {
    SameKeyExactlyWhen(files[j], files[i]);
    forall k | 0 <= k < j ensures KeyOf(files[k]) == KeyOf(files[i]) <==> Collide(files[k].content, files[i].content) {
      SameKeyExactlyWhen(files[k], files[i]);
    }
  }

  /** No content is lost at all. */
  ghost predicate NothingLost(lim: Limits, files: seq<File>, gone: seq<string>) {
    forall i | 0 <= i < |files| && Qualifies(lim, files[i]) :: HasKeptCopy(lim, files, gone, i)
  }

  ghost predicate NoCollisions(lim: Limits, files: seq<File>) {
    forall i, j | 0 <= j < i < |files| && Qualifies(lim, files[j]) && Qualifies(lim, files[i]) ::
      Collide(files[j].content, files[i].content) ==> files[j].content == files[i].content
  }

  lemma NothingLostExactlyWhen(lim: Limits, files: seq<File>)
    requires DistinctNames(files)
    ensures NothingLost(lim, files, ActedNames(KeyOf, TempDb, lim, {}, files, |files|)) <==> NoCollisions(lim, files)
  {
    var gone := ActedNames(KeyOf, TempDb, lim, {}, files, |files|);
    forall i | 0 <= i < |files| && Qualifies(lim, files[i])
      ensures HasKeptCopy(lim, files, gone, i) <==> !exists j | 0 <= j < i :: DisplacedBy(lim, files, j, i)
    {
      ContentLostExactlyWhen(lim, files, i);
    }
    if !NoCollisions(lim, files) {
      var i, j :| 0 <= j < i < |files| && Qualifies(lim, files[j]) && Qualifies(lim, files[i])
        && Collide(files[j].content, files[i].content) && files[j].content != files[i].content;
      CollisionLoses(lim, files, i, j);
    }
  }

  /** Of two different files that collide, one at least is lost. */
  lemma CollisionLoses(lim: Limits, files: seq<File>, i: nat, j: nat)
    requires j < i < |files| && DistinctNames(files) && Qualifies(lim, files[j]) && Qualifies(lim, files[i])
    requires Collide(files[j].content, files[i].content) && files[j].content != files[i].content
    ensures !NothingLost(lim, files, ActedNames(KeyOf, TempDb, lim, {}, files, |files|))
  {
    var gone := ActedNames(KeyOf, TempDb, lim, {}, files, |files|);
    SameKeyExactlyWhen(files[j], files[i]);
    KeyDependsOnContent();
    var k := KeptRepresentative(KeyOf, lim, files, j);
    FirstOfEachKeySurvives(KeyOf, lim, files, k);
    var lost := if files[k].content == files[j].content then i else j;
    assert k < lost && Displaces(KeyOf, lim, files, k, lost);
    LostExactlyWhenDisplaced(KeyOf, lim, files, lost);
    assert !HasKeptCopy(lim, files, gone, lost);
  }

  // ---- what a scan does, in terms of the files ----

  /** Neither smaller nor larger than allowed, where 0 or less is no upper limit, and read
      to its end. */
  predicate IsChecked(lim: Limits, f: File) {
    lim.minSize <= |f.content| && (lim.maxSize <= 0 || |f.content| <= lim.maxSize) && f.readable
  }

  predicate SameSizeAndCksum(f: File, g: File) {
    |f.content| == |g.content| && Cksum(f.content) == Cksum(g.content)
  }

  /** The file is to be named: always when a database is written; when one is read, if it
      holds the size and the checksum of the file; when a temporary one is built, if it does
      or if an earlier file has them. */
  ghost predicate IsNamed(db: Database, lim: Limits, known: set<Key>, files: seq<File>, i: nat)
    requires i < |files|
  {
    var key := Key(Cksum(files[i].content) as bv64, |files[i].content|);
    && IsChecked(lim, files[i])
    && (db == ReadDb ==> key in known)
    && (db == TempDb ==> key in known || exists j | 0 <= j < i :: IsChecked(lim, files[j]) && SameSizeAndCksum(files[j], files[i]))
  }

  lemma ActsExactlyWhen(db: Database, lim: Limits, known: set<Key>, files: seq<File>, i: nat)
    requires i < |files|
    ensures ActsOn(KeyOf, db, lim, known, files, i) <==> IsNamed(db, lim, known, files, i)
  {
    forall j | 0 <= j < i ensures KeyOf(files[j]) == KeyOf(files[i]) <==> SameSizeAndCksum(files[j], files[i]) {
      if |files[j].content| == |files[i].content| {
        SameKeyWhenSameCksum(files[j], files[i]);
      }
    }
  }

  /** The indices, in ascending order, of the files that are to be named. */
  ghost predicate Named(db: Database, lim: Limits, known: set<Key>, files: seq<File>, at: seq<nat>) {
    && (forall x, y | 0 <= x < y < |at| :: at[x] < at[y])
    && (forall x | 0 <= x < |at| :: at[x] < |files|)
    && (forall i: nat | i < |files| :: i in at <==> IsNamed(db, lim, known, files, i))
  }

  function NamesAt(files: seq<File>, at: seq<nat>): (names: seq<string>)
    requires forall x | 0 <= x < |at| :: at[x] < |files|
  {
    seq(|at|, x requires 0 <= x < |at| => files[at[x]].name)
  }

  lemma {:induction false} ActedInOrder(db: Database, lim: Limits, known: set<Key>, files: seq<File>, n: nat) returns (at: seq<nat>)
    requires n <= |files|
    ensures forall x, y | 0 <= x < y < |at| :: at[x] < at[y]
    ensures forall x | 0 <= x < |at| :: at[x] < n
    ensures forall i: nat | i < n :: i in at <==> IsNamed(db, lim, known, files, i)
    ensures ActedNames(KeyOf, db, lim, known, files, n) == NamesAt(files, at)
  {
    if n == 0 {
      at := [];
    } else {
      var before := ActedInOrder(db, lim, known, files, n - 1);
      ActsExactlyWhen(db, lim, known, files, n - 1);
      at := before;
      if IsNamed(db, lim, known, files, n - 1) {
        at := before + [n - 1];
        assert NamesAt(files, at) == NamesAt(files, before) + [files[n - 1].name];
      }
    }
  }

  /** The files that a scan names, in their order. */
  lemma NamedExactlyWhen(db: Database, lim: Limits, known: set<Key>, files: seq<File>) returns (at: seq<nat>)
    ensures Named(db, lim, known, files, at)
    ensures ActedNames(KeyOf, db, lim, known, files, |files|) == NamesAt(files, at)
  {
    at := ActedInOrder(db, lim, known, files, |files|);
  }

  /** A database that is not only read gains the keys of all files that are checked. */
  ghost predicate Held(db: Database, lim: Limits, known: set<Key>, files: seq<File>, key: Key) {
    || key in known
    || (db != ReadDb && exists f :: f in files && IsChecked(lim, f) && key == Key(Cksum(f.content) as bv64, |f.content|))
  }

  lemma HeldExactlyWhen(db: Database, lim: Limits, known: set<Key>, files: seq<File>, key: Key)
    ensures key in DbAfter(KeyOf, db, lim, known, files, |files|) <==> Held(db, lim, known, files, key)
  {
    assert files[..|files|] == files;
    if f :| f in files && IsChecked(lim, f) && key == Key(Cksum(f.content) as bv64, |f.content|) {
      assert Qualifies(lim, f) && key == KeyOf(f);
    }
  }

  // ---- the program ----

  class Dupes {
    const mode: Mode
    const lim: Limits
    var db: set<Key>
    var printed: seq<string>
    var unlinked: seq<string>

    constructor (mode: Mode, lim: Limits, db: set<Key>)
      ensures this.mode == mode && this.lim == lim && this.db == db && printed == unlinked == []
    {
      this.mode, this.lim, this.db := mode, lim, db;
      printed, unlinked := [], [];
    }

    method ReportAndDelete(name: string)
      modifies this`printed, this`unlinked
      ensures printed == Noted(old(printed), mode.report, [name])
      ensures unlinked == Noted(old(unlinked), mode.delete, [name])
    {
      if mode.report {
        printed := printed + [name];
      }
      if mode.delete {
        unlinked := unlinked + [name];
      }
    }

    method ScanFile(f: File)
      modifies this
      ensures db == if mode.db != ReadDb && Qualifies(lim, f) then old(db) + {KeyOf(f)} else old(db)
      ensures var acts := Acts(KeyOf, mode.db, lim, old(db), f);
        && printed == Noted(old(printed), acts && mode.report, [f.name])
        && unlinked == Noted(old(unlinked), acts && mode.delete && mode.db != WriteDb, [f.name])
    {
      if !(|f.content| >= lim.minSize && (lim.maxSize > 0 ==> |f.content| <= lim.maxSize)) {
        return;
      }
      var ok, crc, filesize := ChecksumCalc(f.content, f.readable);
      if !ok {
        return;
      }
      var checksum := Key(crc, filesize);
      assert checksum == KeyOf(f) && Qualifies(lim, f);
      match mode.db
      case TempDb =>
        if checksum in db {
          ReportAndDelete(f.name);
        } else {
          db := db + {checksum};
        }
      case WriteDb =>
        if mode.report {
          printed := printed + [f.name];
        }
        db := db + {checksum};
      case ReadDb =>
        if checksum in db {
          ReportAndDelete(f.name);
        }
    }

    /** Scans the files one by one: exactly the files that the history singles out are
        reported and deleted, and a database that is written gains the keys of all. */
    method ScanAll(files: seq<File>)
      modifies this
      ensures db == DbAfter(KeyOf, mode.db, lim, old(db), files, |files|)
      ensures var acted := ActedNames(KeyOf, mode.db, lim, old(db), files, |files|);
        && printed == Noted(old(printed), mode.report, acted)
        && unlinked == Noted(old(unlinked), mode.delete && mode.db != WriteDb, acted)
      ensures exists at ::
        && Named(mode.db, lim, old(db), files, at)
        && printed == (if mode.report then old(printed) + NamesAt(files, at) else old(printed))
        && unlinked == (if mode.delete && mode.db != WriteDb then old(unlinked) + NamesAt(files, at) else old(unlinked))
      ensures forall key :: key in db <==> Held(mode.db, lim, old(db), files, key)
      ensures mode.db == TempDb && mode.delete && old(db) == {} && old(unlinked) == [] && DistinctNames(files) ==>
        (NothingLost(lim, files, unlinked) <==> NoCollisions(lim, files))
    {
      ghost var acted: seq<string> := [];
      for i := 0 to |files|
        invariant acted == ActedNames(KeyOf, mode.db, lim, old(db), files, i)
        invariant db == DbAfter(KeyOf, mode.db, lim, old(db), files, i)
        invariant printed == Noted(old(printed), mode.report, acted)
        invariant unlinked == Noted(old(unlinked), mode.delete && mode.db != WriteDb, acted)
      {
        OneMoreFile(KeyOf, mode.db, lim, old(db), files, i);
        ghost var acts := Acts(KeyOf, mode.db, lim, db, files[i]);
        NotedStep(old(printed), mode.report, acted, acts, files[i].name);
        NotedStep(old(unlinked), mode.delete && mode.db != WriteDb, acted, acts, files[i].name);
        acted := acted + (if acts then [files[i].name] else []);
        ScanFile(files[i]);
      }
      ghost var at := NamedExactlyWhen(mode.db, lim, old(db), files);
      forall key ensures key in db <==> Held(mode.db, lim, old(db), files, key) {
        HeldExactlyWhen(mode.db, lim, old(db), files, key);
      }
      if DistinctNames(files) {
        NothingLostExactlyWhen(lim, files);
        assert [] + acted == acted;
      }
    }
  }
}
