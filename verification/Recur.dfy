/** The directory iterator (src/recur.c) and the recursive listing that it unrolls. */
module Recur {
  import opened Bits

  type Path = string

  const PATH_MAX := 4096
  const MAXDEPTH := 100 // directories open at once

  datatype Item = Item(path: Path, isDir: bool)

  /** What opendir and readdir, and lstat, say about the paths for which they succeed. It
      does not change during a traversal. */
  datatype FileSystem = FileSystem(dirs: map<Path, seq<string>>, stats: map<Path, bool>)
  {
    ghost predicate Valid() {
      && (forall p | p in dirs :: IsPath(p) && forall k | 0 <= k < |dirs[p]| :: IsName(dirs[p][k]))
      && (forall p | p in stats :: IsPath(p))
    }

    function Lookup(p: Path): Item
      requires p in stats
    {
      Item(p, stats[p])
    }
  }

  predicate NulFree(s: string) {
    forall k | 0 <= k < |s| :: s[k] != '\0'
  }

  predicate IsPath(p: Path) {
    0 < |p| < PATH_MAX && NulFree(p)
  }

  predicate IsName(name: string) {
    NulFree(name) && forall k | 0 <= k < |name| :: name[k] != '/'
  }

  function Full(prefix: Path, name: string): Path {
    prefix + "/" + name
  }

  // ---- the recursive listing ----

  predicate Skipped(fs: FileSystem, prefix: Path, name: string) {
    name == "." || name == ".." || |Full(prefix, name)| >= PATH_MAX || Full(prefix, name) !in fs.stats
  }

  /** A directory is entered if it can be opened and fewer than MAXDEPTH are open. */
  predicate Enters(fs: FileSystem, full: Path, open: nat)
    requires full in fs.stats
  {
    fs.stats[full] && open < MAXDEPTH && full in fs.dirs
  }

  /** The entries called names of the directory whose path is prefix, each followed by its
      own listing; open directories are open. */
  function Listing(fs: FileSystem, prefix: Path, names: seq<string>, open: nat): seq<Item>
    requires open <= MAXDEPTH
    decreases MAXDEPTH - open, |names|
  {
    if names == [] then []
    else if Skipped(fs, prefix, names[0]) then Listing(fs, prefix, names[1..], open)
    else Visit(fs, Full(prefix, names[0]), open) + Listing(fs, prefix, names[1..], open)
  }

  /** One entry and what is below it. */
  function Visit(fs: FileSystem, full: Path, open: nat): seq<Item>
    requires open <= MAXDEPTH && full in fs.stats
    decreases MAXDEPTH - open, 0
  {
    [fs.Lookup(full)] + if Enters(fs, full, open) then Listing(fs, full, fs.dirs[full], open + 1) else []
  }

  /** A trailing slash is dropped. */
  function Strip(p: Path): Path {
    if p != "" && p[|p| - 1] == '/' then p[..|p| - 1] else p
  }

  /** The listing of one argument: of the path itself if it cannot be opened. */
  function Argument(fs: FileSystem, p: Path): seq<Item> {
    if p in fs.dirs then Listing(fs, Strip(p), fs.dirs[p], 1)
    else if p in fs.stats then [fs.Lookup(p)]
    else []
  }

  function Arguments(fs: FileSystem, paths: seq<Path>): seq<Item> {
    if paths == [] then [] else Argument(fs, paths[0]) + Arguments(fs, paths[1..])
  }

  // ---- what is listed ----

  function Join(prefix: Path, names: seq<string>): Path
    decreases |names|
  {
    if names == [] then prefix else Join(Full(prefix, names[0]), names[1..])
  }

  /** The names lead from an entry of a directory down through directories that are entered. */
  predicate Leads(fs: FileSystem, prefix: Path, entries: seq<string>, open: nat, names: seq<string>)
    decreases |names|
  {
    && names != [] && names[0] in entries && !Skipped(fs, prefix, names[0])
    && (|names| > 1 ==>
          var full := Full(prefix, names[0]);
          Enters(fs, full, open) && Leads(fs, full, fs.dirs[full], open + 1, names[1..]))
  }

  lemma {:induction false} LeadsToStat(fs: FileSystem, prefix: Path, entries: seq<string>, open: nat, names: seq<string>)
    requires Leads(fs, prefix, entries, open, names)
    ensures Join(prefix, names) in fs.stats
    ensures open <= MAXDEPTH ==> open + |names| <= MAXDEPTH + 1
    decreases |names|
  {
    assert Join(prefix, names) == Join(Full(prefix, names[0]), names[1..]);
    if |names| > 1 {
      LeadsToStat(fs, Full(prefix, names[0]), fs.dirs[Full(prefix, names[0])], open + 1, names[1..]);
    }
  }

  /** Everything that can be reached is listed. */
  lemma {:induction false} ReachedIsListed(fs: FileSystem, prefix: Path, entries: seq<string>, open: nat, names: seq<string>)
    requires open <= MAXDEPTH && Leads(fs, prefix, entries, open, names)
    ensures Join(prefix, names) in fs.stats
    ensures fs.Lookup(Join(prefix, names)) in Listing(fs, prefix, entries, open)
    decreases |names|, |entries|
  {
    LeadsToStat(fs, prefix, entries, open, names);
    if names[0] != entries[0] {
      ReachedIsListed(fs, prefix, entries[1..], open, names);
    } else {
      var full := Full(prefix, names[0]);
      if |names| == 1 {
        assert Join(prefix, names) == full;
      } else {
        ReachedIsListed(fs, full, fs.dirs[full], open + 1, names[1..]);
      }
      assert fs.Lookup(Join(prefix, names)) in Visit(fs, full, open);
    }
  }

  /** Only what can be reached is listed. */
  lemma {:induction false} ListedIsReached(fs: FileSystem, prefix: Path, entries: seq<string>, open: nat, item: Item)
    returns (names: seq<string>)
    requires open <= MAXDEPTH && item in Listing(fs, prefix, entries, open)
    ensures Leads(fs, prefix, entries, open, names) && Join(prefix, names) in fs.stats && item == fs.Lookup(Join(prefix, names))
    decreases MAXDEPTH - open, |entries|
  {
    var full := Full(prefix, entries[0]);
    if item in Listing(fs, prefix, entries[1..], open) {
      names := ListedIsReached(fs, prefix, entries[1..], open, item);
    } else if item == fs.Lookup(full) {
      names := [entries[0]];
      assert Join(full, []) == full;
    } else {
      var below := ListedIsReached(fs, full, fs.dirs[full], open + 1, item);
      names := [entries[0]] + below;
      assert names[1..] == below;
    }
  }

  /** An entry is listed exactly if all the directories on the way are entered; hence none
      that is more than MAXDEPTH names down. */
  lemma ListedExactlyWhen(fs: FileSystem, prefix: Path, entries: seq<string>, item: Item)
    ensures item in Listing(fs, prefix, entries, 1) <==>
      exists names :: Leads(fs, prefix, entries, 1, names) && Join(prefix, names) in fs.stats && item == fs.Lookup(Join(prefix, names))
    ensures forall names | Leads(fs, prefix, entries, 1, names) :: |names| <= MAXDEPTH
  {
    if item in Listing(fs, prefix, entries, 1) {
      var names := ListedIsReached(fs, prefix, entries, 1, item);
    }
    forall names | Leads(fs, prefix, entries, 1, names)
      ensures |names| <= MAXDEPTH && Join(prefix, names) in fs.stats && fs.Lookup(Join(prefix, names)) in Listing(fs, prefix, entries, 1)
    {
      LeadsToStat(fs, prefix, entries, 1, names);
      ReachedIsListed(fs, prefix, entries, 1, names);
    }
  }

  // ---- nothing is listed twice ----

  predicate Distinct(names: seq<string>) {
    forall i, j | 0 <= i < j < |names| :: names[i] != names[j]
  }

  ghost predicate NamesAreDistinct(fs: FileSystem) {
    forall p | p in fs.dirs :: Distinct(fs.dirs[p])
  }

  /** The path of an entry, or of something below it. */
  predicate Under(full: Path, p: Path) {
    p == full || full + "/" <= p
  }

  lemma {:induction false} JoinIsUnder(prefix: Path, names: seq<string>)
    requires names != []
    ensures Under(Full(prefix, names[0]), Join(prefix, names))
    decreases |names|
  {
    var full := Full(prefix, names[0]);
    assert Join(prefix, names) == Join(full, names[1..]);
    if |names| > 1 {
      JoinIsUnder(full, names[1..]);
    }
  }

  lemma ListedIsUnder(fs: FileSystem, prefix: Path, entries: seq<string>, open: nat, item: Item) returns (name: string)
    requires open <= MAXDEPTH && item in Listing(fs, prefix, entries, open)
    ensures name in entries && Under(Full(prefix, name), item.path)
  {
    var names := ListedIsReached(fs, prefix, entries, open, item);
    JoinIsUnder(prefix, names);
    name := names[0];
  }

  lemma UnderOneName(prefix: Path, a: string, b: string, p: Path)
    requires IsName(a) && IsName(b) && Under(Full(prefix, a), p) && Under(Full(prefix, b), p)
    ensures a == b
  {
    var n := |prefix| + 1;
    assert a == p[n..n + |a|] && b == p[n..n + |b|];
    assert (|p| == n + |a| || p[n + |a|] == '/') && (|p| == n + |b| || p[n + |b|] == '/');
  }

  predicate Once(items: seq<Item>) {
    forall i, j | 0 <= i < j < |items| :: items[i].path != items[j].path
  }

  lemma OnceTogether(a: seq<Item>, b: seq<Item>)
    requires Once(a) && Once(b) && forall x, y | x in a && y in b :: x.path != y.path
    ensures Once(a + b)
  {
  }

  /** The listing of an entry names the entry first, and then only what is below it. */
  lemma VisitIsUnder(fs: FileSystem, full: Path, open: nat, item: Item)
    requires open <= MAXDEPTH && full in fs.stats && item in Visit(fs, full, open)
    ensures Under(full, item.path) && (item.path == full ==> item == fs.Lookup(full))
    ensures item in Visit(fs, full, open)[1..] ==> |item.path| > |full|
  {
    if item in Visit(fs, full, open)[1..] {
      var name := ListedIsUnder(fs, full, fs.dirs[full], open + 1, item);
    }
  }

  /** If no directory has two entries of the same name, no path is listed twice. */
  lemma {:induction false} ListedOnce(fs: FileSystem, prefix: Path, entries: seq<string>, open: nat)
    requires fs.Valid() && NamesAreDistinct(fs) && open <= MAXDEPTH
    requires Distinct(entries) && forall e | e in entries :: IsName(e)
    ensures Once(Listing(fs, prefix, entries, open))
    decreases MAXDEPTH - open, |entries|
  {
    if entries == [] {
    } else {
      var rest := Listing(fs, prefix, entries[1..], open);
      ListedOnce(fs, prefix, entries[1..], open);
      if !Skipped(fs, prefix, entries[0]) {
        var full := Full(prefix, entries[0]);
        var visit := Visit(fs, full, open);
        if Enters(fs, full, open) {
          ListedOnce(fs, full, fs.dirs[full], open + 1);
        }
        forall x | x in visit[1..] ensures x.path != full {
          VisitIsUnder(fs, full, open, x);
        }
        OnceTogether([fs.Lookup(full)], visit[1..]);
        assert visit == [fs.Lookup(full)] + visit[1..];
        forall x, y | x in visit && y in rest ensures x.path != y.path {
          VisitIsUnder(fs, full, open, x);
          var name := ListedIsUnder(fs, prefix, entries[1..], open, y);
          if x.path == y.path {
            UnderOneName(prefix, entries[0], name, x.path);
          }
        }
        OnceTogether(visit, rest);
      }
    }
  }

  // ---- what the arguments bring ----

  /** base, and behind it every name with a slash before it. */
  function PathTo(base: Path, names: seq<string>): Path {
    if names == [] then base
    else
      var last := |names| - 1;
      PathTo(base, names[..last]) + "/" + names[last]
  }

  /** Name number k is one of the directory before it, which is entered, and it is reported. */
  ghost predicate Step(fs: FileSystem, base: Path, entries: seq<string>, names: seq<string>, k: nat)
    requires k < |names|
  {
    var before, path := PathTo(base, names[..k]), PathTo(base, names[..k + 1]);
    && (if k == 0 then names[0] in entries
        else before in fs.stats && fs.stats[before] && before in fs.dirs && names[k] in fs.dirs[before])
    && names[k] != "." && names[k] != ".." && |path| < 4096 && path in fs.stats
  }

  ghost predicate AllSteps(fs: FileSystem, base: Path, entries: seq<string>, names: seq<string>) {
    forall k | 0 <= k < |names| :: Step(fs, base, entries, names, k)
  }

  /** The names lead from the directory base to what is at most a hundred levels below it. */
  ghost predicate Chain(fs: FileSystem, base: Path, entries: seq<string>, names: seq<string>) {
    1 <= |names| <= 100 && AllSteps(fs, base, entries, names)
  }

  /** The item lies below the directory base. */
  ghost predicate LiesBelow(fs: FileSystem, base: Path, entries: seq<string>, item: Item) {
    item.path in fs.stats && item.isDir == fs.stats[item.path] &&
    exists names :: Chain(fs, base, entries, names) && item.path == PathTo(base, names)
  }

  /** What lies below a directory that is given as an argument, perhaps with a slash at its
      end; any other argument that exists is reported itself. */
  ghost predicate Brings(fs: FileSystem, p: Path, item: Item) {
    if p in fs.dirs then LiesBelow(fs, if p != "" && p[|p| - 1] == '/' then p[..|p| - 1] else p, fs.dirs[p], item)
    else p in fs.stats && item == Item(p, fs.stats[p])
  }

  lemma {:induction false} PathFromFirst(base: Path, names: seq<string>)
    requires names != []
    ensures PathTo(base, names) == PathTo(Full(base, names[0]), names[1..])
    decreases |names|
  {
    var last := |names| - 1;
    if last == 0 {
      assert PathTo(base, names[..0]) == base;
    } else {
      PathFromFirst(base, names[..last]);
      assert names[..last][1..] == names[1..][..last - 1];
    }
  }

  lemma {:induction false} JoinIsPathTo(base: Path, names: seq<string>)
    ensures Join(base, names) == PathTo(base, names)
    decreases |names|
  {
    if names == [] {
    } else {
      PathFromFirst(base, names);
      JoinIsPathTo(Full(base, names[0]), names[1..]);
    }
  }

  lemma StepBelow(fs: FileSystem, base: Path, entries: seq<string>, names: seq<string>, k: nat)
    requires k + 1 < |names| && Full(base, names[0]) in fs.stats
    requires fs.stats[Full(base, names[0])] && Full(base, names[0]) in fs.dirs
    ensures Step(fs, base, entries, names, k + 1) <==>
      Step(fs, Full(base, names[0]), fs.dirs[Full(base, names[0])], names[1..], k)
  {
    PathFromFirst(base, names[..k + 1]);
    PathFromFirst(base, names[..k + 2]);
    assert names[..k + 1][1..] == names[1..][..k];
    assert names[..k + 2][1..] == names[1..][..k + 1];
  }

  lemma FirstStep(fs: FileSystem, base: Path, entries: seq<string>, names: seq<string>)
    requires names != []
    ensures Step(fs, base, entries, names, 0) <==> names[0] in entries && !Skipped(fs, base, names[0])
    ensures |names| > 1 && Step(fs, base, entries, names, 1) ==>
      var full := Full(base, names[0]);
      full in fs.stats && fs.stats[full] && full in fs.dirs
  {
    PathFromFirst(base, names[..1]);
    assert names[..1][1..] == [];
  }

  lemma StepsBelow(fs: FileSystem, base: Path, entries: seq<string>, names: seq<string>, full: Path)
    requires names != [] && full == Full(base, names[0]) && full in fs.stats && fs.stats[full] && full in fs.dirs
    ensures AllSteps(fs, base, entries, names) <==>
      Step(fs, base, entries, names, 0) && AllSteps(fs, full, fs.dirs[full], names[1..])
  {
    forall k | 0 <= k < |names| - 1
      ensures Step(fs, base, entries, names, k + 1) <==> Step(fs, full, fs.dirs[full], names[1..], k)
    {
      StepBelow(fs, base, entries, names, k);
    }
    if Step(fs, base, entries, names, 0) && AllSteps(fs, full, fs.dirs[full], names[1..]) {
      forall k | 0 <= k < |names| ensures Step(fs, base, entries, names, k) {
        assert k > 0 ==> Step(fs, full, fs.dirs[full], names[1..], k - 1);
      }
    }
  }

  lemma OneStep(fs: FileSystem, base: Path, entries: seq<string>, names: seq<string>)
    requires |names| == 1
    ensures AllSteps(fs, base, entries, names) <==> Step(fs, base, entries, names, 0)
  {
  }

  lemma SecondStep(fs: FileSystem, base: Path, entries: seq<string>, names: seq<string>)
    requires |names| > 1 && AllSteps(fs, base, entries, names)
    ensures Step(fs, base, entries, names, 0) && Step(fs, base, entries, names, 1)
  {
  }

  lemma {:induction false} LeadsExactlyWhen(fs: FileSystem, base: Path, entries: seq<string>, open: nat, names: seq<string>)
    requires open <= MAXDEPTH
    ensures Leads(fs, base, entries, open, names) <==>
      names != [] && open + |names| <= 101 && AllSteps(fs, base, entries, names)
    decreases |names|
  {
    if names != [] {
      var full := Full(base, names[0]);
      FirstStep(fs, base, entries, names);
      if |names| == 1 {
        OneStep(fs, base, entries, names);
      } else if full in fs.stats && fs.stats[full] && full in fs.dirs {
        StepsBelow(fs, base, entries, names, full);
        if open < MAXDEPTH {
          LeadsExactlyWhen(fs, full, fs.dirs[full], open + 1, names[1..]);
        }
      } else if AllSteps(fs, base, entries, names) {
        SecondStep(fs, base, entries, names);
      }
    }
  }

  lemma ChainExactlyWhen(fs: FileSystem, base: Path, entries: seq<string>, names: seq<string>)
    ensures Leads(fs, base, entries, 1, names) <==> Chain(fs, base, entries, names)
    ensures Join(base, names) == PathTo(base, names)
  {
    LeadsExactlyWhen(fs, base, entries, 1, names);
    JoinIsPathTo(base, names);
  }

  lemma BelowExactlyWhen(fs: FileSystem, base: Path, entries: seq<string>, item: Item)
    ensures item in Listing(fs, base, entries, 1) <==> LiesBelow(fs, base, entries, item)
  {
    ListedExactlyWhen(fs, base, entries, item);
    if item in Listing(fs, base, entries, 1) {
      var names :| Leads(fs, base, entries, 1, names) && Join(base, names) in fs.stats && item == fs.Lookup(Join(base, names));
      ChainExactlyWhen(fs, base, entries, names);
    }
    if LiesBelow(fs, base, entries, item) {
      var names :| Chain(fs, base, entries, names) && item.path == PathTo(base, names);
      ChainExactlyWhen(fs, base, entries, names);
      assert item == fs.Lookup(Join(base, names));
    }
  }

  lemma ArgumentExactlyWhen(fs: FileSystem, p: Path, item: Item)
    ensures item in Argument(fs, p) <==> Brings(fs, p, item)
  {
    if p in fs.dirs {
      BelowExactlyWhen(fs, Strip(p), fs.dirs[p], item);
    }
  }

  /** The items are those that some argument brings. */
  lemma {:induction false} ArgumentsExactlyWhen(fs: FileSystem, paths: seq<Path>, item: Item)
    ensures item in Arguments(fs, paths) <==> exists k | 0 <= k < |paths| :: Brings(fs, paths[k], item)
    decreases |paths|
  {
    if paths == [] {
    } else {
      ArgumentExactlyWhen(fs, paths[0], item);
      ArgumentsExactlyWhen(fs, paths[1..], item);
      if k :| 0 < k < |paths| && Brings(fs, paths[k], item) {
        assert Brings(fs, paths[1..][k - 1], item);
      }
    }
  }

  /** They come in the order of the arguments. */
  lemma {:induction false} ArgumentsInOrder(fs: FileSystem, first: seq<Path>, second: seq<Path>)
    ensures Arguments(fs, first + second) == Arguments(fs, first) + Arguments(fs, second)
    decreases |first|
  {
    if first == [] {
      assert first + second == second;
    } else {
      assert (first + second)[1..] == first[1..] + second;
      ArgumentsInOrder(fs, first[1..], second);
    }
  }

  /** And within a directory in the order of its entries. */
  lemma {:induction false} EntriesInOrder(fs: FileSystem, prefix: Path, first: seq<string>, second: seq<string>, open: nat)
    requires open <= MAXDEPTH
    ensures Listing(fs, prefix, first + second, open) == Listing(fs, prefix, first, open) + Listing(fs, prefix, second, open)
    decreases |first|
  {
    if first == [] {
      assert first + second == second;
    } else {
      assert (first + second)[1..] == first[1..] + second;
      EntriesInOrder(fs, prefix, first[1..], second, open);
    }
  }

  /** A directory comes before what is below it. */
  lemma EntryComesFirst(fs: FileSystem, prefix: Path, name: string, open: nat)
    requires open <= MAXDEPTH
    ensures var items, path := Listing(fs, prefix, [name], open), prefix + "/" + name;
      items != [] ==> items[0].path == path && forall k | 0 < k < |items| :: path + "/" <= items[k].path
  {
    var items, full := Listing(fs, prefix, [name], open), Full(prefix, name);
    assert [name][1..] == [] && Listing(fs, prefix, [], open) == [];
    if !Skipped(fs, prefix, name) {
      var visit := Visit(fs, full, open);
      assert items == visit + [] == visit;
      forall k | 0 < k < |visit| ensures full + "/" <= visit[k].path {
        assert visit[k] == visit[1..][k - 1];
        VisitIsUnder(fs, full, open, visit[k]);
      }
    }
  }

  // ---- C strings ----

  /** Everything before the last slash; the whole string if there is none. */
  function Parent(s: Path): Path
    decreases |s|
  {
    if s == "" then s
    else if s[|s| - 1] == '/' then s[..|s| - 1]
    else if '/' in s then Parent(s[..|s| - 1])
    else s
  }

  /** Taking the parent undoes entering a directory. */
  lemma {:induction false} ParentUndoesPush(prefix: Path, name: string)
    requires IsName(name)
    ensures Parent(Full(prefix, name)) == prefix
    decreases |name|
  {
    if name == "" {
      assert Full(prefix, name) == prefix + "/";
    } else {
      var full, shorter := Full(prefix, name), name[..|name| - 1];
      assert full[|prefix|] == '/' && full[|full| - 1] == name[|name| - 1];
      assert full[..|full| - 1] == Full(prefix, shorter);
      ParentUndoesPush(prefix, shorter);
    }
  }

  ghost predicate IsCString(a: array<char>, s: string)
    reads a
  {
    |s| < a.Length && NulFree(s) && a[..|s|] == s && a[|s|] == '\0'
  }

  method StrLen(a: array<char>, ghost s: string) returns (n: int)
    requires IsCString(a, s)
    ensures n == |s|
  {
    n := 0;
    while a[n] != '\0'
      invariant 0 <= n <= |s|
      decreases |s| - n
    {
      n := n + 1;
    }
  }

  method StrCpy(a: array<char>, s: string)
    requires |s| < a.Length && NulFree(s)
    modifies a
    ensures IsCString(a, s)
  {
    forall k | 0 <= k < |s| {
      a[k] := s[k];
    }
    a[|s|] := '\0';
  }

  lemma ParentCuts(s: Path, p: nat)
    requires p < |s| && s[p] == '/' && forall k | p < k < |s| :: s[k] != '/'
    ensures Parent(s) == s[..p]
    decreases |s|
  {
    if p < |s| - 1 {
      ParentCuts(s[..|s| - 1], p);
    }
  }

  method ParentDir(a: array<char>, ghost s: string)
    requires IsCString(a, s)
    modifies a
    ensures IsCString(a, Parent(s))
  {
    var n := StrLen(a, s);
    var p := n - 1;
    while p >= 0
      invariant -1 <= p < n && forall k | p < k < n :: s[k] != '/'
      invariant a[..] == old(a[..])
    {
      if a[p] == '/' {
        ParentCuts(s, p);
        a[p] := '\0';
        return;
      }
      p := p - 1;
    }
  }

  // ---- the iterator ----

  /** What is still to come: the rest of the innermost directory, then that of the one
      around it, and so on. */
  function Pending(fs: FileSystem, path: Path, stack: seq<seq<string>>): seq<Item>
    requires |stack| <= MAXDEPTH
    decreases |stack|
  {
    if stack == [] then []
    else
      var top := |stack| - 1;
      Listing(fs, path, stack[top], |stack|) + Pending(fs, Parent(path), stack[..top])
  }

  predicate AllNames(stack: seq<seq<string>>) {
    forall i | 0 <= i < |stack| :: forall k | 0 <= k < |stack[i]| :: IsName(stack[i][k])
  }

  lemma PendingOn(fs: FileSystem, path: Path, stack: seq<seq<string>>, names: seq<string>)
    requires |stack| < MAXDEPTH
    ensures Pending(fs, path, stack + [names]) == Listing(fs, path, names, |stack| + 1) + Pending(fs, Parent(path), stack)
  {
    assert (stack + [names])[..|stack|] == stack;
  }

  lemma PendingBottom(fs: FileSystem, path: Path, names: seq<string>)
    ensures Pending(fs, path, [names]) == Listing(fs, path, names, 1)
  {
    assert [] + [names] == [names];
    PendingOn(fs, path, [], names);
  }

  /** What an entry brings. */
  function Visited(fs: FileSystem, prefix: Path, name: string, open: nat): seq<Item>
    requires open <= MAXDEPTH
  {
    if Skipped(fs, prefix, name) then [] else Visit(fs, Full(prefix, name), open)
  }

  lemma ListingStep(fs: FileSystem, prefix: Path, names: seq<string>, open: nat)
    requires open <= MAXDEPTH && names != []
    ensures Listing(fs, prefix, names, open) == Visited(fs, prefix, names[0], open) + Listing(fs, prefix, names[1..], open)
  {
  }

  lemma Reassociate(all: seq<Item>, a: seq<Item>, b: seq<Item>, c: seq<Item>)
    requires all == a + b
    ensures all + c == a + (b + c)
  {
  }

  lemma ReadOne(fs: FileSystem, path: Path, stack: seq<seq<string>>, names: seq<string>)
    requires |stack| < MAXDEPTH && names != []
    ensures Pending(fs, path, stack + [names]) ==
      Visited(fs, path, names[0], |stack| + 1) + Pending(fs, path, stack + [names[1..]])
  {
    var open := |stack| + 1;
    PendingOn(fs, path, stack, names);
    PendingOn(fs, path, stack, names[1..]);
    ListingStep(fs, path, names, open);
    Reassociate(Listing(fs, path, names, open), Visited(fs, path, names[0], open),
      Listing(fs, path, names[1..], open), Pending(fs, Parent(path), stack));
  }

  lemma PushOne(fs: FileSystem, path: Path, name: string, stack: seq<seq<string>>)
    requires |stack| < MAXDEPTH && IsName(name) && Full(path, name) in fs.stats && Enters(fs, Full(path, name), |stack|)
    ensures var full := Full(path, name);
      Visit(fs, full, |stack|) + Pending(fs, path, stack) == [fs.Lookup(full)] + Pending(fs, full, stack + [fs.dirs[full]])
  {
    ParentUndoesPush(path, name);
    PendingOn(fs, Full(path, name), stack, fs.dirs[Full(path, name)]);
  }

  function Yielded(r: Option<Item>): seq<Item> {
    if r.Some? then [r.value] else []
  }


  /** struct dirstack. A directory handle is the list of the names it has still to give. */
  class DirStack {
    const fs: FileSystem
    const dirs: array<seq<string>>
    const prefix: array<char>
    var pos: nat
    ghost var path: Path   // the string in prefix
    ghost var closed: bool // the last handle has been closed

    ghost predicate Valid()
      reads this, dirs, prefix
    {
      && fs.Valid() && dirs.Length == MAXDEPTH && prefix.Length == PATH_MAX
      && pos < MAXDEPTH && AllNames(dirs[..pos + 1]) && IsCString(prefix, path)
    }

    ghost function Remaining(): seq<Item>
      requires Valid()
      reads this, dirs, prefix
    {
      Pending(fs, path, dirs[..pos + 1])
    }

    /** dirstack_open, when opendir succeeds. */
    constructor (fs: FileSystem, path: Path)
      requires fs.Valid() && path in fs.dirs
      ensures Valid() && !closed && this.fs == fs && fresh(dirs) && fresh(prefix)
      ensures Remaining() == Listing(fs, Strip(path), fs.dirs[path], 1)
    {
      this.fs := fs;
      dirs, prefix := new seq<string>[MAXDEPTH](_ => []), new char[PATH_MAX];
      pos, this.path, closed := 0, Strip(path), false;
      new;
      dirs[0] := fs.dirs[path];
      StrCpy(prefix, path);
      var n := StrLen(prefix, path);
      if prefix[n - 1] == '/' {
        prefix[n - 1] := '\0';
      }
      assert dirs[..1] == [fs.dirs[path]];
      PendingBottom(fs, Strip(path), fs.dirs[path]);
    }

    /** Leaves a directory that has been read to its end. */
    method Pop()
      requires Valid() && pos > 0 && dirs[pos] == []
      modifies this`pos, this`path, prefix
      ensures Valid() && Remaining() == old(Remaining()) && pos == old(pos) - 1
    {
      assert dirs[..pos + 1][..pos] == dirs[..pos];
      pos := pos - 1;
      ParentDir(prefix, path);
      path := Parent(path);
    }

    /** readdir */
    method ReadDir() returns (name: string)
      requires Valid() && dirs[pos] != []
      modifies dirs
      ensures Valid() && IsName(name) && dirs[pos] == old(dirs[pos])[1..]
      ensures old(Remaining()) == Visited(fs, path, name, pos + 1) + Remaining()
    {
      ghost var stack, names := dirs[..pos], dirs[pos];
      assert dirs[..pos + 1] == stack + [names];
      ReadOne(fs, path, stack, names);
      assert AllNames(stack + [names]) && (stack + [names])[pos] == names;
      name := dirs[pos][0];
      dirs[pos] := dirs[pos][1..];
      assert dirs[..pos + 1] == stack + [names[1..]];
    }

    /** Opens the directory full. */
    method Push(full: Path, ghost name: string)
      requires Valid() && IsName(name) && full == Full(path, name) && full in fs.stats && Enters(fs, full, pos + 1)
      modifies this`pos, this`path, dirs, prefix
      ensures Valid() && Visit(fs, full, old(pos) + 1) + old(Remaining()) == [fs.Lookup(full)] + Remaining()
    {
      ghost var stack := dirs[..pos + 1];
      PushOne(fs, path, name, stack);
      pos := pos + 1;
      dirs[pos] := fs.dirs[full];
      assert dirs[..pos + 1] == stack + [fs.dirs[full]];
      StrCpy(prefix, full);
      path := full;
    }

    /** Opens the directory full, if it is one, it can be and there is room for it. */
    method Enter(full: Path, ghost name: string)
      requires Valid() && IsName(name) && full == Full(path, name) && !Skipped(fs, path, name)
      modifies this`pos, this`path, dirs, prefix
      ensures Valid() && Visit(fs, full, old(pos) + 1) + old(Remaining()) == [fs.Lookup(full)] + Remaining()
    {
      if fs.stats[full] && pos + 1 < MAXDEPTH && full in fs.dirs {
        Push(full, name);
      } else {
        assert Visit(fs, full, pos + 1) == [fs.Lookup(full)];
      }
    }

    /** The string in prefix. */
    method Prefix() returns (s: Path)
      requires Valid()
      ensures s == path
    {
      var n := StrLen(prefix, path);
      s := prefix[..n];
    }

    lemma AtTheEnd()
      requires Valid() && pos == 0 && dirs[pos] == []
      ensures Remaining() == []
    {
      assert dirs[..1] == [[]];
      PendingBottom(fs, path, []);
    }

    /** The next name in the innermost directory that has one. */
    method NextName() returns (name: Option<string>)
      requires Valid()
      modifies this`pos, this`path, dirs, prefix
      ensures Valid() && (name.None? ==> old(Remaining()) == Remaining() == [])
      ensures name.Some? ==> IsName(name.value) && old(Remaining()) == Visited(fs, path, name.value, pos + 1) + Remaining()
      ensures name.Some? ==> pos < old(pos) || (pos == old(pos) && |dirs[pos]| < |old(dirs[pos])|)
    {
      while dirs[pos] == []
        invariant Valid() && Remaining() == old(Remaining())
        invariant pos < old(pos) || (pos == old(pos) && dirs[pos] == old(dirs[pos]))
        decreases pos
      {
        if pos == 0 {
          AtTheEnd();
          return None;
        }
        Pop();
      }
      var n := ReadDir();
      name := Some(n);
    }

    /** Skips the entry called name of the innermost directory, or visits it. */
    method VisitName(name: string) returns (r: Option<Item>)
      requires Valid() && IsName(name)
      modifies this`pos, this`path, dirs, prefix
      ensures Valid() && Visited(fs, old(path), name, old(pos) + 1) + old(Remaining()) == Yielded(r) + Remaining()
      ensures r.None? ==> pos == old(pos) && dirs[pos] == old(dirs[pos])
    {
      r := None;
      var start := Prefix();
      var full := Full(start, name);
      if !(name == "." || name == ".." || |full| >= PATH_MAX || full !in fs.stats) {
        Enter(full, name);
        r := Some(fs.Lookup(full));
      }
    }

    /** One turn of the loop of dirstack_next; no more if there is no name left. */
    method Turn() returns (r: Option<Item>, more: bool)
      requires Valid() && !closed
      modifies this, dirs, prefix
      ensures Valid() && closed == !more && old(Remaining()) == Yielded(r) + Remaining()
      ensures !more ==> r.None? && Remaining() == []
      ensures more && r.None? ==> pos < old(pos) || (pos == old(pos) && |dirs[pos]| < |old(dirs[pos])|)
    {
      r, more := None, true;
      var name := NextName();
      if name.Some? {
        r := VisitName(name.value);
      } else {
        closed, more := true, false;
      }
    }

    /** dirstack_next */
    method Next() returns (r: Option<Item>)
      requires Valid() && !closed
      modifies this, dirs, prefix
      ensures Valid() && closed == r.None?
      ensures r.None? ==> old(Remaining()) == Remaining() == []
      ensures r.Some? ==> old(Remaining()) == [r.value] + Remaining()
    {
      var more := true;
      r := None;
      while more && r.None?
        invariant Valid() && closed == !more && old(Remaining()) == Yielded(r) + Remaining()
        invariant !more ==> r.None? && Remaining() == []
        decreases more, r.None?, pos, |dirs[pos]|
      {
        r, more := Turn();
      }
    }
  }

  lemma ListedOneMore(items: seq<Item>, item: Item, rest: seq<Item>, rest': seq<Item>)
    requires rest == [item] + rest'
    ensures items + rest == items + [item] + rest'
  {
  }

  /** struct recur. The arguments that are left are list. */
  class Walker {
    const fs: FileSystem
    var list: seq<Path>
    var stack: DirStack?
    ghost var repr: set<object>

    ghost predicate StackValid()
      reads this, repr
    {
      stack != null ==> stack in repr && stack.dirs in repr && stack.prefix in repr && stack.Valid() && stack.fs == fs
    }

    ghost predicate Valid()
      reads this, repr
    {
      this !in repr && fs.Valid() && StackValid() && (stack != null ==> !stack.closed)
    }

    ghost function Current(): seq<Item>
      requires StackValid()
      reads this, repr
    {
      if stack == null then [] else stack.Remaining()
    }

    ghost function Remaining(): seq<Item>
      requires StackValid()
      reads this, repr
    {
      Current() + Arguments(fs, list)
    }

    constructor (fs: FileSystem, paths: seq<Path>)
      requires fs.Valid()
      ensures Valid() && this.fs == fs && repr == {} && Remaining() == Arguments(fs, paths)
    {
      this.fs, list, stack, repr := fs, paths, null, {};
    }

    /** recur_open */
    static method Open(fs: FileSystem, paths: seq<Path>) returns (w: Walker?)
      requires fs.Valid()
      ensures w == null <==> paths == [] || |paths[0]| >= PATH_MAX
      ensures w != null ==> fresh(w) && w.Valid() && w.fs == fs && w.repr == {} && w.Remaining() == Arguments(fs, paths)
    {
      if paths == [] || |paths[0]| >= PATH_MAX {
        return null;
      }
      w := new Walker(fs, paths);
    }

    /** The next entry of the argument at hand. */
    method NextInside() returns (r: Option<Item>)
      requires Valid()
      modifies repr
      ensures r.None? ==> old(Remaining()) == Arguments(fs, list)
      ensures r.Some? ==> Valid() && old(Remaining()) == [r.value] + Remaining()
    {
      r := None;
      if stack != null {
        r := stack.Next();
        Reassociate(old(Current()), Yielded(r), Current(), Arguments(fs, list));
      }
    }

    /** Opens the argument cur; if that fails, it is listed itself. */
    method OpenArgument(cur: Path) returns (r: Option<Item>)
      requires this !in repr && fs.Valid()
      modifies this`stack, this`repr
      ensures Valid() && fresh(repr) && Argument(fs, cur) == Yielded(r) + Current()
    {
      stack, repr, r := null, {}, None;
      if cur in fs.dirs {
        stack := new DirStack(fs, cur);
        repr := {stack, stack.dirs, stack.prefix};
      } else if cur in fs.stats {
        r := Some(fs.Lookup(cur));
      }
    }

    /** Goes on to the next argument. */
    method NextArgument() returns (r: Option<Item>)
      requires this !in repr && fs.Valid() && list != []
      modifies this
      ensures Valid() && fresh(repr) && list == old(list)[1..]
      ensures Arguments(fs, old(list)) == Yielded(r) + Remaining()
    {
      var cur := list[0];
      list := list[1..];
      r := OpenArgument(cur);
      Reassociate(Argument(fs, cur), Yielded(r), Current(), Arguments(fs, list));
    }

    /** One turn of the loop of recur_next. */
    method Turn() returns (r: Option<Item>, more: bool)
      requires Valid()
      modifies this, repr
      ensures !more ==> r.None? && old(Remaining()) == []
      ensures more ==> Valid() && fresh(repr - old(repr)) && old(Remaining()) == Yielded(r) + Remaining()
      ensures more && r.None? ==> |list| < old(|list|)
    {
      r := NextInside();
      more := true;
      if r.None? {
        if list == [] {
          more := false;
        } else {
          r := NextArgument();
        }
      }
    }

    /** recur_next. After the last entry it must not be called again. */
    method Next() returns (r: Option<Item>)
      requires Valid()
      modifies this, repr
      ensures r.None? ==> old(Remaining()) == []
      ensures r.Some? ==> Valid() && fresh(repr - old(repr)) && old(Remaining()) == [r.value] + Remaining()
    {
      var more := true;
      r := None;
      while more && r.None?
        invariant more ==> Valid() && fresh(repr - old(repr)) && old(Remaining()) == Yielded(r) + Remaining()
        invariant !more ==> r.None? && old(Remaining()) == []
        decreases more, r.None?, |list|
      {
        r, more := Turn();
      }
    }

    /** One turn of the loop of a caller. */
    method ListNext(items: seq<Item>, ghost all: seq<Item>) returns (items': seq<Item>, more: bool)
      requires Valid() && all == items + Remaining()
      modifies this, repr
      ensures if more then Valid() && fresh(repr - old(repr)) && all == items' + Remaining() else items' == all
      ensures more ==> |Remaining()| < |old(Remaining())|
    {
      ghost var rest := Remaining();
      items' := items;
      var r := Next();
      more := r.Some?;
      if more {
        items' := items + [r.value];
        ListedOneMore(items, r.value, rest, Remaining());
      }
    }

    /** The loop of a caller, over all that there is. */
    static method ListAll(fs: FileSystem, paths: seq<Path>) returns (items: seq<Item>)
      requires fs.Valid()
      ensures items == if paths != [] && |paths[0]| < PATH_MAX then Arguments(fs, paths) else []
      ensures forall item :: item in items <==>
        paths != [] && |paths[0]| < 4096 && exists k | 0 <= k < |paths| :: Brings(fs, paths[k], item)
    {
      forall item ensures item in Arguments(fs, paths) <==> exists k | 0 <= k < |paths| :: Brings(fs, paths[k], item) {
        ArgumentsExactlyWhen(fs, paths, item);
      }
      items := [];
      var w := Open(fs, paths);
      if w != null {
        var more := true;
        ghost var all, left := Arguments(fs, paths), |w.Remaining()|;
        while more
          invariant if more then w.Valid() && fresh(w) && fresh(w.repr) && all == items + w.Remaining() else items == all
          invariant more ==> left == |w.Remaining()|
          decreases more, left
        {
          items, more := w.ListNext(items, all);
          left := if more then |w.Remaining()| else left;
        }
      }
    }
  }
}
