/**
 The path <-> id cache of the Google Drive client (`#getParents`,
 `#getFilePath`, `#getFileIdFromPath` in src/gdrive/client.js) as a state
 machine over an abstract drive.

 The drive is what the backend would answer: `files` is `files.get` by id and
 `listing` is the list of non-trashed files `files.list` searches by title.
 Each operation takes the cache and returns the new cache together with its
 result and the number of backend calls it made. One map holds both kinds of
 entry, id -> path and path -> id, as in the source.
 */
module PathCache {
  import opened Wrappers
  import opened Utils

  /** A drive item: its id, its title and the id of its first parent, if any. */
  datatype File = File(id: string, title: string, parent: Option<string>)

  datatype Drive = Drive(rootId: string, files: map<string, File>, listing: seq<File>)

  /** Every file is stored under its own id, and the listing shows the stored records. */
  predicate WellFormed(d: Drive)
  {
    && (forall id :: id in d.files ==> d.files[id].id == id)
    && (forall f :: f in d.listing ==> f.id in d.files && d.files[f.id] == f)
  }

  type Cache = map<string, string>

  datatype DriveError =
    | NotFound(id: string)   // `files.get` rejects an unknown parent id
    | Cycle                  // the parent walk does not reach a top within |files| steps

  /** What a backend walk returns: a result and the number of calls it made. */
  datatype Fetched<T> = Fetched(result: Result<T, DriveError>, calls: nat)

  /** What a cache operation returns: a result, the cache after it, and its backend calls. */
  datatype Step<T> = Step(result: Result<T, DriveError>, cache: Cache, calls: nat)

  /** A cache entry counts as present only when it is truthy, i.e. not the empty string. */
  predicate Hit(c: Cache, key: string)
  {
    key in c && c[key] != ""
  }

  // ----- #getParents -----

  /** The walk stops at `f`: it has no parent, or it is the drive root. */
  predicate Top(d: Drive, f: File)
  {
    f.parent.None? || f.id == d.rootId
  }

  /** The walk goes from `child` up to `parent`. */
  predicate ParentLink(d: Drive, child: File, parent: File)
  {
    && !Top(d, child)
    && child.parent.value in d.files
    && d.files[child.parent.value] == parent
  }

  /** `chain` lists the ancestors of `f` the walk visits, outermost first and ending at `f`'s parent. */
  ghost predicate Chain(d: Drive, f: File, chain: seq<File>)
    decreases |chain|
  {
    if |chain| == 0 then Top(d, f)
    else ParentLink(d, f, chain[|chain| - 1]) && Chain(d, chain[|chain| - 1], chain[..|chain| - 1])
  }

  /** A file has at most one ancestor chain. */
  lemma {:induction false} ChainUnique(d: Drive, f: File, a: seq<File>, b: seq<File>)
    requires Chain(d, f, a) && Chain(d, f, b)
    ensures a == b
    decreases |a|
  {
    if |a| > 0 {
      assert |b| > 0;
      ChainUnique(d, a[|a| - 1], a[..|a| - 1], b[..|b| - 1]);
      assert a == a[..|a| - 1] + [a[|a| - 1]];
      assert b == b[..|b| - 1] + [b[|b| - 1]];
    }
  }

  /**
   `#getParents(file)` with at most `fuel` parent fetches: the chain of
   ancestors, one `files.get` per ancestor.
   */
  function Parents(d: Drive, f: File, fuel: nat): (r: Fetched<seq<File>>)
    ensures r.result.Success? ==> Chain(d, f, r.result.value) && r.calls == |r.result.value|
    ensures r.result.Success? ==> |r.result.value| <= fuel
    ensures r.result.Failure? && r.result.error.NotFound? ==> r.result.error.id !in d.files
    decreases fuel
  {
    if Top(d, f) then Fetched(Success([]), 0)
    else if fuel == 0 then Fetched(Failure(Cycle), 0)
    else if f.parent.value !in d.files then Fetched(Failure(NotFound(f.parent.value)), 1)
    else
      var p := d.files[f.parent.value];
      var up := Parents(d, p, fuel - 1);
      match up.result
      case Failure(e) => Fetched(Failure(e), up.calls + 1)
      case Success(chain) =>
        assert (chain + [p])[..|chain|] == chain;
        Fetched(Success(chain + [p]), up.calls + 1)
  }

  /** Conversely, the walk finds every ancestor chain that fits in its fuel. */
  lemma {:induction false} ParentsComplete(d: Drive, f: File, chain: seq<File>, fuel: nat)
    requires Chain(d, f, chain) && |chain| <= fuel
    ensures Parents(d, f, fuel).result == Success(chain)
    decreases |chain|
  {
    if |chain| > 0 {
      var init, p := chain[..|chain| - 1], chain[|chain| - 1];
      assert ParentLink(d, f, p) && Chain(d, p, init);
      ParentsComplete(d, p, init, fuel - 1);
      assert Parents(d, f, fuel).result == Success(init + [p]);
      assert chain == init + [p];
    }
  }

  /** Every ancestor on a chain has the chain before it as its own chain. */
  lemma {:induction false} ChainPrefix(d: Drive, f: File, chain: seq<File>, j: nat)
    requires Chain(d, f, chain) && j < |chain|
    ensures Chain(d, chain[j], chain[..j])
    decreases |chain|
  {
    var init := chain[..|chain| - 1];
    if j < |chain| - 1 {
      ChainPrefix(d, chain[|chain| - 1], init, j);
      assert init[j] == chain[j] && init[..j] == chain[..j];
    }
  }

  /** A walk that ends never visits a file twice, and never comes back to where it started. */
  lemma ChainDistinct(d: Drive, f: File, chain: seq<File>)
    requires Chain(d, f, chain)
    ensures forall i, j :: 0 <= i < j < |chain| ==> chain[i] != chain[j]
    ensures f !in chain
  {
    forall i, j | 0 <= i < j < |chain|
      ensures chain[i] != chain[j]
    {
      ChainPrefix(d, f, chain, i);
      ChainPrefix(d, f, chain, j);
      if chain[i] == chain[j] {
        ChainUnique(d, chain[i], chain[..i], chain[..j]);
      }
    }
    if f in chain {
      var j :| 0 <= j < |chain| && chain[j] == f;
      ChainPrefix(d, f, chain, j);
      ChainUnique(d, f, chain, chain[..j]);
    }
  }

  /** Files that are all stored under their ids, none twice, are no more than the drive holds. */
  lemma {:induction false} StoredFilesBound(d: Drive, s: seq<File>)
    requires forall i :: 0 <= i < |s| ==> s[i].id in d.files && d.files[s[i].id] == s[i]
    requires forall i, j :: 0 <= i < j < |s| ==> s[i] != s[j]
    ensures |set i | 0 <= i < |s| :: s[i].id| == |s|
    ensures |s| <= |d.files|
    decreases |s|
  {
    var ids := set i | 0 <= i < |s| :: s[i].id;
    if |s| > 0 {
      var init := s[..|s| - 1];
      StoredFilesBound(d, init);
      var before := set i | 0 <= i < |init| :: init[i].id;
      var last := s[|s| - 1];
      assert last.id !in before;
      assert ids == before + {last.id} by {
        forall x | x in ids
          ensures x in before + {last.id}
        {
          var i :| 0 <= i < |s| && s[i].id == x;
          if i < |s| - 1 {
            assert init[i] == s[i];
          }
        }
        forall x | x in before
          ensures x in ids
        {
          var i :| 0 <= i < |init| && init[i].id == x;
          assert s[i] == init[i];
        }
      }
      assert ids <= d.files.Keys;
      SubsetSize(ids, d.files.Keys);
    }
  }

  lemma {:induction false} SubsetSize<T>(a: set<T>, b: set<T>)
    requires a <= b
    ensures |a| <= |b|
    decreases |a|
  {
    if a != {} {
      var x :| x in a;
      SubsetSize(a - {x}, b - {x});
    }
  }

  /**
   For a file stored in a well-formed drive, the walk reports `Cycle` only
   when the file has no ancestor chain at all: following first parents never
   reaches a top, so the source's recursion would not end.
   */
  lemma CycleMeansNoChain(d: Drive, f: File)
    requires WellFormed(d) && f.id in d.files && d.files[f.id] == f
    requires Parents(d, f, |d.files|).result == Failure(Cycle)
    ensures forall chain :: !Chain(d, f, chain)
  {
    forall chain | Chain(d, f, chain)
      ensures false
    {
      ChainDistinct(d, f, chain);
      ChainStored(d, f, chain);
      var walk := chain + [f];
      assert forall i :: 0 <= i < |chain| ==> walk[i] == chain[i];
      StoredFilesBound(d, walk);
      ParentsComplete(d, f, chain, |d.files|);
    }
  }

  /** Every ancestor on a chain of a well-formed drive is stored under its id. */
  lemma {:induction false} ChainStored(d: Drive, f: File, chain: seq<File>)
    requires WellFormed(d) && Chain(d, f, chain)
    ensures forall i :: 0 <= i < |chain| ==> chain[i].id in d.files && d.files[chain[i].id] == chain[i]
    decreases |chain|
  {
    if |chain| > 0 {
      var init, p := chain[..|chain| - 1], chain[|chain| - 1];
      ChainStored(d, p, init);
      assert forall i :: 0 <= i < |init| ==> chain[i] == init[i];
    }
  }

  /** The file `k` parent fetches above `f`, if the walk gets that far without stopping. */
  function Ancestor(d: Drive, f: File, k: nat): Option<File>
    decreases k
  {
    if k == 0 then Some(f)
    else if Top(d, f) || f.parent.value !in d.files then None
    else Ancestor(d, d.files[f.parent.value], k - 1)
  }

  /** After `k` fetches the walk has reached a file that still has a parent to fetch. */
  predicate Climbing(d: Drive, f: File, k: nat)
  {
    Ancestor(d, f, k).Some? && !Top(d, Ancestor(d, f, k).value)
  }

  /** The walk runs out of fuel exactly when the source's recursion would go on past that many fetches. */
  lemma {:induction false} ParentsCycleIffClimbing(d: Drive, f: File, fuel: nat)
    ensures Parents(d, f, fuel).result == Failure(Cycle) <==> Climbing(d, f, fuel)
    decreases fuel
  {
    if fuel > 0 && !Top(d, f) && f.parent.value in d.files {
      var p := d.files[f.parent.value];
      ParentsCycleIffClimbing(d, p, fuel - 1);
      assert Parents(d, f, fuel).result == Failure(Cycle) <==> Parents(d, p, fuel - 1).result == Failure(Cycle);
      assert Ancestor(d, f, fuel) == Ancestor(d, p, fuel - 1);
    }
  }

  /** The walk is deterministic: from the `i`-th ancestor on it is that ancestor's own walk. */
  lemma {:induction false} AncestorShift(d: Drive, f: File, i: nat, m: nat)
    requires Ancestor(d, f, i).Some?
    ensures Ancestor(d, f, i + m) == Ancestor(d, Ancestor(d, f, i).value, m)
    decreases i
  {
    if i > 0 {
      var p := d.files[f.parent.value];
      AncestorShift(d, p, i - 1, m);
    }
  }

  /** A walk that is still climbing after `k + 1` fetches was climbing after `k`. */
  lemma {:induction false} ClimbingStep(d: Drive, f: File, k: nat)
    requires Climbing(d, f, k + 1)
    ensures Climbing(d, f, k)
    decreases k
  {
    if k > 0 {
      var p := d.files[f.parent.value];
      ClimbingStep(d, p, k - 1);
    }
  }

  lemma {:induction false} ClimbingBelow(d: Drive, f: File, j: nat, k: nat)
    requires j <= k && Climbing(d, f, k)
    ensures Climbing(d, f, j)
    decreases k - j
  {
    if j < k {
      ClimbingStep(d, f, k - 1);
      ClimbingBelow(d, f, j, k - 1);
    }
  }

  /** Every file the walk reaches from a stored file is stored. */
  lemma {:induction false} AncestorStored(d: Drive, f: File, k: nat)
    requires WellFormed(d) && f.id in d.files && d.files[f.id] == f
    requires Ancestor(d, f, k).Some?
    ensures Ancestor(d, f, k).value.id in d.files && d.files[Ancestor(d, f, k).value.id] == Ancestor(d, f, k).value
    decreases k
  {
    if k > 0 {
      var p := d.files[f.parent.value];
      AncestorStored(d, p, k - 1);
    }
  }

  /** A walk from a stored file that climbs past as many fetches as the drive has files visits some file twice. */
  lemma RepeatedAncestor(d: Drive, f: File) returns (i: nat, j: nat)
    requires WellFormed(d) && f.id in d.files && d.files[f.id] == f
    requires Climbing(d, f, |d.files|)
    ensures i < j <= |d.files| && Ancestor(d, f, i).Some? && Ancestor(d, f, i) == Ancestor(d, f, j)
  {
    var n := |d.files|;
    forall k: nat | k <= n
      ensures Ancestor(d, f, k).Some?
    {
      ClimbingBelow(d, f, k, n);
    }
    var walk := seq(n + 1, k requires 0 <= k <= n && Ancestor(d, f, k).Some? => Ancestor(d, f, k).value);
    forall k | 0 <= k < |walk|
      ensures Ancestor(d, f, k) == Some(walk[k])
      ensures walk[k].id in d.files && d.files[walk[k].id] == walk[k]
    {
      AncestorStored(d, f, k);
    }
    if forall a, b :: 0 <= a < b < |walk| ==> walk[a] != walk[b] {
      StoredFilesBound(d, walk);
      assert false;
    }
    i, j :| 0 <= i < j < |walk| && walk[i] == walk[j];
    assert Ancestor(d, f, i) == Some(walk[i]) && Ancestor(d, f, j) == Some(walk[j]);
  }

  /** A walk that repeats a file climbs forever: each later step repeats an earlier one. */
  lemma {:induction false} ClimbingForever(d: Drive, f: File, i: nat, j: nat, n: nat)
    requires i < j && Ancestor(d, f, i).Some? && Ancestor(d, f, i) == Ancestor(d, f, j)
    requires Climbing(d, f, j)
    ensures Climbing(d, f, n)
    decreases n
  {
    if n <= j {
      ClimbingBelow(d, f, n, j);
    } else {
      var m := n - j;
      AncestorShift(d, f, i, m);
      AncestorShift(d, f, j, m);
      assert j + m == n;
      ClimbingForever(d, f, i, j, i + m);
    }
  }

  /**
   For a file stored in a well-formed drive, running out of fuel after as
   many fetches as the drive has files means running out for any fuel: the
   verdict is the source's never-ending recursion, not a walk cut short.
   */
  lemma CycleIsForever(d: Drive, f: File)
    requires WellFormed(d) && f.id in d.files && d.files[f.id] == f
    requires Parents(d, f, |d.files|).result == Failure(Cycle)
    ensures forall fuel: nat :: Parents(d, f, fuel).result == Failure(Cycle)
  {
    ParentsCycleIffClimbing(d, f, |d.files|);
    var i, j := RepeatedAncestor(d, f);
    ClimbingBelow(d, f, j, |d.files|);
    forall fuel: nat
      ensures Parents(d, f, fuel).result == Failure(Cycle)
    {
      ClimbingForever(d, f, i, j, fuel);
      ParentsCycleIffClimbing(d, f, fuel);
    }
  }

  // ----- #getFilePath -----

  /** The path segment of an ancestor: the root's title is replaced by the empty string. */
  function Segment(d: Drive, p: File): string
  {
    if p.id == d.rootId then "" else p.title
  }

  function Segments(d: Drive, chain: seq<File>): (r: seq<string>)
    ensures |r| == |chain|
    ensures forall i :: 0 <= i < |chain| ==> r[i] == Segment(d, chain[i])
  {
    seq(|chain|, i requires 0 <= i < |chain| => Segment(d, chain[i]))
  }

  /** `parts.join('/')`. */
  function JoinPath(parts: seq<string>): string
  {
    if |parts| == 0 then ""
    else if |parts| == 1 then parts[0]
    else JoinPath(parts[..|parts| - 1]) + "/" + parts[|parts| - 1]
  }

  /** The path `#getFilePath` computes for `f` when it is not cached, with the calls the walk makes. */
  function PathFetch(d: Drive, f: File): (r: Fetched<string>)
  {
    var up := Parents(d, f, |d.files|);
    match up.result
    case Failure(e) => Fetched(Failure(e), up.calls)
    case Success(chain) => Fetched(Success(JoinPath(Segments(d, chain) + [f.title])), up.calls)
  }

  function PathOf(d: Drive, f: File): Result<string, DriveError>
  {
    PathFetch(d, f).result
  }

  /** A file directly under the drive root has path `/` + title. */
  lemma RootChildPath(d: Drive, f: File)
    requires d.rootId in d.files && d.files[d.rootId].id == d.rootId
    requires f.parent == Some(d.rootId) && f.id != d.rootId
    ensures PathOf(d, f) == Success("/" + f.title)
  {
    var root := d.files[d.rootId];
    assert d.rootId in d.files.Keys;
    assert 1 <= |d.files|;
    assert Parents(d, root, |d.files| - 1).result == Success([]);
    assert Parents(d, f, |d.files|).result == Success([root]);
    var parts := Segments(d, [root]) + [f.title];
    assert parts == ["", f.title];
    assert parts[..1] == [""];
    assert JoinPath(parts) == "" + "/" + f.title;
    assert "" + "/" + f.title == "/" + f.title;
    assert PathFetch(d, f).result == Success(JoinPath(parts));
  }

  /**
   `#getFilePath(file)`: a truthy cached entry under the file's id answers
   without any backend call; otherwise the path is computed and stored both
   ways, id -> path and path -> id.
   */
  function GetFilePath(d: Drive, c: Cache, f: File): (r: Step<string>)
    ensures Hit(c, f.id) ==> r.result == Success(c[f.id]) && r.cache == c && r.calls == 0
    ensures !Hit(c, f.id) ==> r.result == PathOf(d, f)
    ensures !Hit(c, f.id) && r.result.Success? ==>
      var p := r.result.value;
      && p in r.cache && r.cache[p] == f.id
      && f.id in r.cache && (p != f.id ==> r.cache[f.id] == p)
      && (forall k :: k in c && k != p && k != f.id ==> k in r.cache && r.cache[k] == c[k])
    ensures !Hit(c, f.id) && r.result.Success? ==> forall k :: k in r.cache ==> k in c || k == f.id || k == r.result.value
    ensures !Hit(c, f.id) ==> r.calls == Parents(d, f, |d.files|).calls
    ensures r.result.Failure? ==> r.cache == c
    ensures c.Keys <= r.cache.Keys
  {
    if Hit(c, f.id) then Step(Success(c[f.id]), c, 0)
    else
      var fetched := PathFetch(d, f);
      match fetched.result
      case Failure(e) => Step(Failure(e), c, fetched.calls)
      case Success(p) => Step(Success(p), c[f.id := p][p := f.id], fetched.calls)
  }

  // ----- Cache invariant -----

  /** A cache entry `key -> value` is right about the drive in one of its two directions. */
  ghost predicate EntryHolds(d: Drive, key: string, value: string)
  {
    || (key in d.files && PathOf(d, d.files[key]) == Success(value))
    || (value in d.files && PathOf(d, d.files[value]) == Success(key))
  }

  ghost predicate Consistent(d: Drive, c: Cache)
  {
    forall k :: k in c ==> EntryHolds(d, k, c[k])
  }

  /** No file's path is also a file id, so the two kinds of entry cannot be confused. */
  ghost predicate Separated(d: Drive)
  {
    forall a, b :: a in d.files && b in d.files ==> PathOf(d, d.files[a]) != Success(b)
  }

  ghost predicate Invariant(d: Drive, c: Cache)
  {
    WellFormed(d) && Separated(d) && Consistent(d, c)
  }

  /** On a consistent cache `#getFilePath` answers the file's true path, and it leaves the cache consistent. */
  lemma GetFilePathAgreesWithDrive(d: Drive, c: Cache, f: File)
    requires Invariant(d, c)
    requires f.id in d.files && d.files[f.id] == f
    ensures GetFilePath(d, c, f).result == PathOf(d, f)
    ensures Consistent(d, GetFilePath(d, c, f).cache)
  {
    var r := GetFilePath(d, c, f);
    if Hit(c, f.id) {
      assert EntryHolds(d, f.id, c[f.id]);
    } else if r.result.Success? {
      var p := r.result.value;
      forall k | k in r.cache
        ensures EntryHolds(d, k, r.cache[k])
      {
        if k == p {
        } else if k == f.id {
        } else {
          assert k in c;
        }
      }
    }
  }

  // ----- #getFileIdFromPath -----

  /** `filePath.split('/').pop()`: the part after the last slash. */
  function Leaf(p: string): (t: string)
    ensures '/' !in t
    ensures |t| <= |p|
  {
    if |p| == 0 then ""
    else if p[|p| - 1] == '/' then ""
    else Leaf(p[..|p| - 1]) + [p[|p| - 1]]
  }

  /** Text without a slash extends the leaf. */
  lemma {:induction false} LeafAppend(p: string, t: string)
    requires '/' !in t
    ensures Leaf(p + t) == Leaf(p) + t
    decreases |t|
  {
    if |t| == 0 {
      assert p + t == p;
    } else {
      var init, x := t[..|t| - 1], t[|t| - 1];
      assert x in t;
      assert t == init + [x];
      assert p + t == (p + init) + [x];
      assert (p + t)[..|p + t| - 1] == p + init;
      LeafAppend(p, init);
    }
  }

  lemma LeafAfterSlash(a: string, t: string)
    requires '/' !in t
    ensures Leaf(a + "/" + t) == t
    ensures Leaf(t) == t
  {
    var q := a + "/";
    assert q[|q| - 1] == '/';
    assert Leaf(q) == "";
    assert a + "/" + t == q + t;
    LeafAppend(q, t);
    assert Leaf(q) + t == t;
    LeafAppend("", t);
    assert "" + t == t;
  }

  /** The last segment of a file's path is its title, so the title search finds it. */
  lemma LeafOfPath(d: Drive, f: File)
    requires PathOf(d, f).Success? && '/' !in f.title
    ensures Leaf(PathOf(d, f).value) == f.title
  {
    var chain := Parents(d, f, |d.files|).result.value;
    var parts := Segments(d, chain) + [f.title];
    assert parts[..|parts| - 1] == Segments(d, chain);
    LeafAfterSlash(JoinPath(Segments(d, chain)), f.title);
  }

  /** `files.list` with `title = '<leaf>'`: the listed files with that title, in listing order. */
  function Candidates(d: Drive, leaf: string): (r: seq<File>)
    ensures forall f :: f in r <==> f in d.listing && f.title == leaf
  {
    Filter(d.listing, (f: File) => f.title == leaf)
  }

  /**
   The `asyncFind` callback of `#getFileIdFromPath` run over every candidate
   in order: compute its path, store `path -> id`, and answer whether the
   path is the one looked up. The first failure stops the run.
   */
  function Probe(d: Drive, c: Cache, filePath: string, cands: seq<File>): (r: Step<seq<bool>>)
    ensures r.result.Success? ==> |r.result.value| == |cands|
    ensures c.Keys <= r.cache.Keys
    decreases |cands|
  {
    if |cands| == 0 then Step(Success([]), c, 0)
    else
      var s := GetFilePath(d, c, cands[0]);
      match s.result
      case Failure(e) => Step(Failure(e), s.cache, s.calls)
      case Success(path) =>
        var rest := Probe(d, s.cache[path := cands[0].id], filePath, cands[1..]);
        match rest.result
        case Failure(e) => Step(Failure(e), rest.cache, s.calls + rest.calls)
        case Success(found) => Step(Success([path == filePath] + found), rest.cache, s.calls + rest.calls)
  }

  /** One step of the callback run when the first candidate's path is computed. */
  lemma ProbeStep(d: Drive, c: Cache, filePath: string, cands: seq<File>)
    requires |cands| > 0 && GetFilePath(d, c, cands[0]).result.Success?
    ensures var s := GetFilePath(d, c, cands[0]);
      var rest := Probe(d, s.cache[s.result.value := cands[0].id], filePath, cands[1..]);
      var r := Probe(d, c, filePath, cands);
      && r.cache == rest.cache
      && r.result.Success? == rest.result.Success?
      && (rest.result.Success? ==> r.result.value == [s.result.value == filePath] + rest.result.value)
  {
  }

  /** One callback run on a consistent cache: it computes the true path and stores only entries that hold. */
  lemma ProbeOne(d: Drive, c: Cache, f: File)
    requires Invariant(d, c) && f in d.listing
    ensures var s := GetFilePath(d, c, f);
      && s.result == PathOf(d, f)
      && Consistent(d, s.cache)
      && (s.result.Success? ==> f.id in s.cache && Consistent(d, s.cache[s.result.value := f.id]))
  {
    GetFilePathAgreesWithDrive(d, c, f);
    var s := GetFilePath(d, c, f);
    if s.result.Success? {
      assert EntryHolds(d, s.result.value, f.id);
      if !Hit(c, f.id) {
        assert f.id in s.cache;
      }
    }
  }

  /** The callback run leaves a consistent cache consistent. */
  lemma {:induction false} ProbeKeepsConsistency(d: Drive, c: Cache, filePath: string, cands: seq<File>)
    requires Invariant(d, c)
    requires forall f :: f in cands ==> f in d.listing
    ensures Consistent(d, Probe(d, c, filePath, cands).cache)
    decreases |cands|
  {
    if |cands| > 0 {
      assert cands[0] in cands;
      ProbeOne(d, c, cands[0]);
      var s := GetFilePath(d, c, cands[0]);
      if s.result.Success? {
        assert forall g :: g in cands[1..] ==> g in cands;
        ProbeKeepsConsistency(d, s.cache[s.result.value := cands[0].id], filePath, cands[1..]);
      }
    }
  }

  /** Answers for the first candidate and for the rest combine into answers for all of them. */
  lemma AnswersCons(d: Drive, filePath: string, cands: seq<File>, x: bool, rest: seq<bool>)
    requires |cands| > 0 && |rest| == |cands| - 1
    requires x <==> PathOf(d, cands[0]) == Success(filePath)
    requires forall i :: 0 <= i < |rest| ==> (rest[i] <==> PathOf(d, cands[1..][i]) == Success(filePath))
    ensures forall i :: 0 <= i < |cands| ==> (([x] + rest)[i] <==> PathOf(d, cands[i]) == Success(filePath))
  {
    forall i | 0 <= i < |cands|
      ensures ([x] + rest)[i] <==> PathOf(d, cands[i]) == Success(filePath)
    {
      if i > 0 {
        assert cands[i] == cands[1..][i - 1];
      }
    }
  }

  /**
   When the callback run succeeds it has answered, for each candidate, whether
   its true path is the one looked up.
   */
  lemma {:induction false} ProbeAnswers(d: Drive, c: Cache, filePath: string, cands: seq<File>)
    requires Invariant(d, c)
    requires forall f :: f in cands ==> f in d.listing
    ensures var r := Probe(d, c, filePath, cands);
      r.result.Success? ==> forall i :: 0 <= i < |cands| ==>
        (r.result.value[i] <==> PathOf(d, cands[i]) == Success(filePath))
    decreases |cands|
  {
    if |cands| > 0 {
      assert cands[0] in cands;
      ProbeOne(d, c, cands[0]);
      var s := GetFilePath(d, c, cands[0]);
      if s.result.Success? {
        var c1 := s.cache[s.result.value := cands[0].id];
        assert forall g :: g in cands[1..] ==> g in cands;
        ProbeAnswers(d, c1, filePath, cands[1..]);
        var rest := Probe(d, c1, filePath, cands[1..]);
        if rest.result.Success? {
          ProbeStep(d, c, filePath, cands);
          AnswersCons(d, filePath, cands, s.result.value == filePath, rest.result.value);
        }
      }
    }
  }

  /**
   When the callback run succeeds it has stored every candidate under its id,
   not only those before the match.
   */
  lemma {:induction false} ProbeCachesEveryCandidate(d: Drive, c: Cache, filePath: string, cands: seq<File>)
    ensures var r := Probe(d, c, filePath, cands);
      r.result.Success? ==> forall i :: 0 <= i < |cands| ==> cands[i].id in r.cache
    decreases |cands|
  {
    if |cands| > 0 {
      var s := GetFilePath(d, c, cands[0]);
      if s.result.Success? {
        var c1 := s.cache[s.result.value := cands[0].id];
        ProbeCachesEveryCandidate(d, c1, filePath, cands[1..]);
        var rest := Probe(d, c1, filePath, cands[1..]);
        if rest.result.Success? {
          ProbeStep(d, c, filePath, cands);
          assert cands[0].id in c1;
          forall i | 1 <= i < |cands|
            ensures cands[i].id in rest.cache
          {
            assert cands[i] == cands[1..][i - 1];
          }
        }
      }
    }
  }

  /** After a successful run on a consistent cache, every candidate's id is cached against its true path. */
  lemma CandidatePathCached(d: Drive, c: Cache, filePath: string, cands: seq<File>, i: nat)
    requires Invariant(d, c)
    requires forall f :: f in cands ==> f in d.listing
    requires i < |cands| && Probe(d, c, filePath, cands).result.Success?
    ensures var r := Probe(d, c, filePath, cands);
      cands[i].id in r.cache && PathOf(d, cands[i]) == Success(r.cache[cands[i].id])
  {
    var r := Probe(d, c, filePath, cands);
    ProbeKeepsConsistency(d, c, filePath, cands);
    ProbeCachesEveryCandidate(d, c, filePath, cands);
    var f := cands[i];
    assert f in cands;
    assert EntryHolds(d, f.id, r.cache[f.id]);
  }

  /** The callback run fails only when some candidate's path cannot be computed. */
  lemma {:induction false} ProbeFailure(d: Drive, c: Cache, filePath: string, cands: seq<File>)
    requires Invariant(d, c)
    requires forall f :: f in cands ==> f in d.listing
    ensures Probe(d, c, filePath, cands).result.Failure? ==> exists i :: 0 <= i < |cands| && PathOf(d, cands[i]).Failure?
    decreases |cands|
  {
    if |cands| > 0 {
      assert cands[0] in cands;
      ProbeOne(d, c, cands[0]);
      var s := GetFilePath(d, c, cands[0]);
      if s.result.Success? {
        var c1 := s.cache[s.result.value := cands[0].id];
        assert forall g :: g in cands[1..] ==> g in cands;
        ProbeFailure(d, c1, filePath, cands[1..]);
        if Probe(d, c1, filePath, cands[1..]).result.Failure? {
          var i :| 0 <= i < |cands[1..]| && PathOf(d, cands[1..][i]).Failure?;
          assert cands[1..][i] == cands[i + 1];
        }
      }
    }
  }

  /**
   The part of `#getFileIdFromPath` past the two shortcuts: list the files
   titled like the path's last segment (one call), run the callback over all
   of them, and pick the first whose path matched.
   */
  function LookUp(d: Drive, c: Cache, filePath: string): (r: Step<Option<File>>)
    ensures 1 <= r.calls
    ensures c.Keys <= r.cache.Keys
    ensures r.result.Success? && r.result.value.Some? ==> r.result.value.value in Candidates(d, Leaf(filePath))
  {
    var cands := Candidates(d, Leaf(filePath));
    var probe := Probe(d, c, filePath, cands);
    match probe.result
    case Failure(e) => Step(Failure(e), probe.cache, probe.calls + 1)
    case Success(found) => Step(Success(SelectFirst(cands, found)), probe.cache, probe.calls + 1)
  }

  function IdOf(f: Option<File>): Option<string>
  {
    if f.Some? then Some(f.value.id) else None
  }

  /**
   `#getFileIdFromPath(filePath)` as written: a truthy cached entry answers
   without any backend call; `/` is the drive root; otherwise the title
   search runs and the id of the first matching candidate is returned
   (`undefined` when none matches).
   */
  function GetFileIdFromPath(d: Drive, c: Cache, filePath: string): (r: Step<Option<string>>)
    ensures Hit(c, filePath) ==> r.result == Success(Some(c[filePath])) && r.cache == c && r.calls == 0
    ensures !Hit(c, filePath) && filePath == "/" ==> r.result == Success(Some(d.rootId)) && r.cache == c && r.calls == 0
    ensures !Hit(c, filePath) && filePath != "/" ==> 1 <= r.calls
    ensures c.Keys <= r.cache.Keys
  {
    if Hit(c, filePath) then Step(Success(Some(c[filePath])), c, 0)
    else if filePath == "/" then Step(Success(Some(d.rootId)), c, 0)
    else
      var found := LookUp(d, c, filePath);
      Step(if found.result.Success? then Success(IdOf(found.result.value)) else Failure(found.result.error), found.cache, found.calls)
  }

  /** On a consistent cache the title search returns the first candidate at the path, or none. */
  lemma LookUpAgreesWithDrive(d: Drive, c: Cache, filePath: string)
    requires Invariant(d, c)
    ensures var r := LookUp(d, c, filePath);
      var cands := Candidates(d, Leaf(filePath));
      && Consistent(d, r.cache)
      && (r.result.Success? ==> r.result.value == Find(cands, (f: File) => PathOf(d, f) == Success(filePath)))
      && (forall i :: 0 <= i < |cands| && r.result.Success? ==> cands[i].id in r.cache)
  {
    var cands := Candidates(d, Leaf(filePath));
    ProbeKeepsConsistency(d, c, filePath, cands);
    ProbeAnswers(d, c, filePath, cands);
    ProbeCachesEveryCandidate(d, c, filePath, cands);
    LookUpStep(d, c, filePath);
    var probe := Probe(d, c, filePath, cands);
    if probe.result.Success? {
      var p := (f: File) => PathOf(d, f) == Success(filePath);
      assert probe.result.value == Evaluate(cands, p);
      AsyncFindIsFind(cands, p);
    }
  }

  /** The lookup's outcome is the callback run's, with the first matching candidate picked. */
  lemma LookUpStep(d: Drive, c: Cache, filePath: string)
    ensures var cands := Candidates(d, Leaf(filePath));
      var probe := Probe(d, c, filePath, cands);
      var r := LookUp(d, c, filePath);
      && r.cache == probe.cache
      && r.result.Success? == probe.result.Success?
      && (probe.result.Success? ==> r.result.value == SelectFirst(cands, probe.result.value))
  {
  }

  /** Whatever id a lookup returns for a path (other than `/`) names a file that is at that path. */
  lemma ResolvedIdIsAtPath(d: Drive, c: Cache, filePath: string, id: string)
    requires Invariant(d, c) && filePath != "/" && filePath !in d.files
    requires GetFileIdFromPath(d, c, filePath).result == Success(Some(id))
    ensures id in d.files && PathOf(d, d.files[id]) == Success(filePath)
    ensures Consistent(d, GetFileIdFromPath(d, c, filePath).cache)
  {
    if Hit(c, filePath) {
      assert EntryHolds(d, filePath, c[filePath]);
    } else {
      LookUpAgreesWithDrive(d, c, filePath);
      var f := LookUp(d, c, filePath).result.value.value;
      assert f in d.listing;
    }
  }

  /**
   The cache is one map for both directions, so a lookup whose argument is a
   file id already cached answers with that file's path, which is not an id.
   */
  lemma CachedIdAnswersWithPath(d: Drive, c: Cache, id: string)
    requires Invariant(d, c) && id in d.files && Hit(c, id)
    ensures GetFileIdFromPath(d, c, id).result == Success(Some(c[id]))
    ensures PathOf(d, d.files[id]) == Success(c[id]) && c[id] !in d.files
  {
    assert EntryHolds(d, id, c[id]);
  }

  /** A listed file at the path is always found, if the lookup does not fail. */
  lemma ListedFileIsFound(d: Drive, c: Cache, filePath: string, f: File)
    requires Invariant(d, c)
    requires f in d.listing && '/' !in f.title && PathOf(d, f) == Success(filePath)
    requires GetFileIdFromPath(d, c, filePath).result.Success?
    ensures GetFileIdFromPath(d, c, filePath).result.value.Some?
  {
    if !Hit(c, filePath) && filePath != "/" {
      LeafOfPath(d, f);
      LookUpAgreesWithDrive(d, c, filePath);
      assert f in Candidates(d, Leaf(filePath));
    }
  }

  // ----- Repeated lookups -----

  /**
   The lookup that also remembers its answer: when a candidate matches, the
   path is stored against the id it returns.
   */
  function GetFileIdFromPathStable(d: Drive, c: Cache, filePath: string): (r: Step<Option<string>>)
    ensures Hit(c, filePath) ==> r.result == Success(Some(c[filePath])) && r.cache == c && r.calls == 0
    ensures !Hit(c, filePath) && filePath == "/" ==> r.result == Success(Some(d.rootId)) && r.cache == c && r.calls == 0
    ensures r.result.Success? && r.result.value.Some? && filePath != "/" ==> filePath in r.cache && r.cache[filePath] == r.result.value.value
    ensures r.result == GetFileIdFromPath(d, c, filePath).result && r.calls == GetFileIdFromPath(d, c, filePath).calls
  {
    if Hit(c, filePath) then Step(Success(Some(c[filePath])), c, 0)
    else if filePath == "/" then Step(Success(Some(d.rootId)), c, 0)
    else
      var found := LookUp(d, c, filePath);
      match found.result
      case Failure(e) => Step(Failure(e), found.cache, found.calls)
      case Success(None) => Step(Success(None), found.cache, found.calls)
      case Success(Some(f)) => Step(Success(Some(f.id)), found.cache[filePath := f.id], found.calls)
  }

  /** Asking again for a path just resolved gives the same id, from the cache, with no backend call. */
  lemma StableLookupRepeats(d: Drive, c: Cache, filePath: string)
    requires WellFormed(d) && "" !in d.files
    requires GetFileIdFromPathStable(d, c, filePath).result.Success?
    requires GetFileIdFromPathStable(d, c, filePath).result.value.Some?
    ensures var first := GetFileIdFromPathStable(d, c, filePath);
      var second := GetFileIdFromPathStable(d, first.cache, filePath);
      second.result == first.result && second.cache == first.cache && second.calls == 0
  {
    var first := GetFileIdFromPathStable(d, c, filePath);
    if !Hit(c, filePath) && filePath != "/" {
      var f := LookUp(d, c, filePath).result.value.value;
      assert f in d.listing;
    }
  }

  /** The stable lookup stores only entries that hold, so it keeps the cache consistent as well. */
  lemma StableLookupKeepsConsistency(d: Drive, c: Cache, filePath: string)
    requires Invariant(d, c)
    ensures Consistent(d, GetFileIdFromPathStable(d, c, filePath).cache)
  {
    if !Hit(c, filePath) && filePath != "/" {
      LookUpAgreesWithDrive(d, c, filePath);
      var found := LookUp(d, c, filePath);
      if found.result.Success? && found.result.value.Some? {
        var f := found.result.value.value;
        assert f in d.listing;
        var r := GetFileIdFromPathStable(d, c, filePath);
        forall k | k in r.cache
          ensures EntryHolds(d, k, r.cache[k])
        {
          if k != filePath {
            assert k in found.cache;
          }
        }
      }
    }
  }

  /** Two files `a` and `b`, both titled `t`, directly under the root `r`, listed in that order. */
  function Twins(r: string, a: string, b: string, t: string): Drive
  {
    Drive(r, map[r := File(r, "My Drive", None), a := File(a, t, Some(r)), b := File(b, t, Some(r))],
          [File(a, t, Some(r)), File(b, t, Some(r))])
  }

  /** Both twins are at `/t`. */
  lemma TwinsAreAtSamePath(r: string, a: string, b: string, t: string)
    requires r != a && r != b && a != b
    ensures PathOf(Twins(r, a, b, t), File(a, t, Some(r))) == Success("/" + t)
    ensures PathOf(Twins(r, a, b, t), File(b, t, Some(r))) == Success("/" + t)
  {
    var d := Twins(r, a, b, t);
    assert d.files[r] == File(r, "My Drive", None);
    RootChildPath(d, File(a, t, Some(r)));
    RootChildPath(d, File(b, t, Some(r)));
  }

  /** The title search for the leaf of `/t` lists both twins, in listing order. */
  lemma TwinsListed(r: string, a: string, b: string, t: string)
    requires '/' !in t
    ensures Candidates(Twins(r, a, b, t), Leaf("/" + t)) == [File(a, t, Some(r)), File(b, t, Some(r))]
  {
    LeafAfterSlash("", t);
    assert "" + "/" + t == "/" + t;
    ListedPair(Twins(r, a, b, t), File(a, t, Some(r)), File(b, t, Some(r)), t);
  }

  /** A listing of two files with the searched title is returned whole. */
  lemma ListedPair(d: Drive, fa: File, fb: File, leaf: string)
    requires d.listing == [fa, fb] && fa.title == leaf && fb.title == leaf
    ensures Candidates(d, leaf) == [fa, fb]
  {
    assert d.listing[1..] == [fb];
    assert [fb][1..] == [];
  }

  /** The callback over two candidates at the same path: both match, and the path ends up cached against the second. */
  lemma ProbeTwoAtSamePath(d: Drive, a: File, b: File, p: string)
    requires PathOf(d, a) == Success(p) && PathOf(d, b) == Success(p)
    requires a.id != b.id && p != b.id
    ensures var r := Probe(d, map[], p, [a, b]);
      r.result == Success([true, true]) && p in r.cache && r.cache[p] == b.id
  {
    var one, both := [b], [a, b];
    assert one[0] == b && one[1..] == [];
    assert both[0] == a && both[1..] == one;
    var s1 := GetFilePath(d, map[], a);
    var c1 := s1.cache[p := a.id];
    assert !Hit(c1, b.id);
    var s2 := GetFilePath(d, c1, b);
    var c2 := s2.cache[p := b.id];
    ProbeStep(d, c1, p, one);
    assert Probe(d, c2, p, one[1..]).result == Success([]);
    var last := Probe(d, c1, p, one);
    assert last.result == Success([true]) && last.cache == c2 by {
      assert [true] + [] == [true];
    }
    ProbeStep(d, map[], p, both);
    var r := Probe(d, map[], p, both);
    assert r.result == Success([true] + [true]) && r.cache == c2;
    assert [true] + [true] == [true, true];
  }

  /**
   With two listed files at the same path, the as-written lookup returns the
   first one but leaves the path cached against the last one probed, so the
   next lookup of the same path returns a different id.
   */
  lemma DuplicatePathResolvesDifferently(d: Drive, a: File, b: File, p: string)
    requires Candidates(d, Leaf(p)) == [a, b] && p != "/"
    requires PathOf(d, a) == Success(p) && PathOf(d, b) == Success(p)
    requires a.id != b.id && p != b.id && b.id != ""
    ensures var first := GetFileIdFromPath(d, map[], p);
      && first.result == Success(Some(a.id))
      && GetFileIdFromPath(d, first.cache, p).result == Success(Some(b.id))
  {
    ProbeTwoAtSamePath(d, a, b, p);
    assert SelectFirst([a, b], [true, true]) == Some(a);
  }

  /**
   The drive `Twins` meets the conditions: for distinct ids and a title
   without a slash, resolving `/t` twice gives `a`, then `b`.
   */
  lemma TwinsResolveDifferently(r: string, a: string, b: string, t: string)
    requires r != a && r != b && a != b && b != "" && b != "/" + t
    requires '/' !in t && t != ""
    ensures var first := GetFileIdFromPath(Twins(r, a, b, t), map[], "/" + t);
      && first.result == Success(Some(a))
      && GetFileIdFromPath(Twins(r, a, b, t), first.cache, "/" + t).result == Success(Some(b))
  {
    TwinsAreAtSamePath(r, a, b, t);
    TwinsListed(r, a, b, t);
    assert "/" + t != "/" by { assert |"/" + t| > 1; }
    DuplicatePathResolvesDifferently(Twins(r, a, b, t), File(a, t, Some(r)), File(b, t, Some(r)), "/" + t);
  }
}
