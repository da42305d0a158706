/** The layered configuration: an ordered list of key/value stores, the local
    file first, read first-hit, written to the local store, and deleted,
    renamed, copied and flushed in every store. */
module ConfigSources {
  import opened Common

  /** A stored value: a string or a long. */
  datatype Value = Text(s: string) | Number(n: int)

  /** Which implementation a store is. */
  datatype SourceKind =
    | Local     // the local file (ConfigSourceLocal)
    | LocalOld  // the same file read through the pre-0.66 "/M" prefix
    | Remote    // a further source made by ConfigSource::Create

  /** One store: its entries and groups by absolute path, and what its own
      (foreign) write-like operations and Flush report. */
  datatype Source = Source(
    kind: SourceKind,
    entries: map<string, Value>,
    groups: set<string>,
    writable: bool,
    flushes: bool)

  /** Entries and groups are deleted by the same code with a different
      store query. */
  datatype Item = Entry | Group

  /** A request passed on to one store (by position) whose effect on the
      store is the store's own business. */
  datatype Call =
    | RenameGroupCall(source: nat, pathOld: string, nameNew: string)
    | CopyGroupCall(source: nat, pathSrc: string, pathDst: string)

  /** INT_MAX: the priority of a source that has none. */
  const IntMax: int := 0x7fff_ffff

  /** The entry whose presence marks a pre-0.66 local file. */
  const VersionPath: string := "/M/Profiles/Version"

  // ---------------------------------------------------------------------
  // One store
  // ---------------------------------------------------------------------

  /** The path a store really reads or enumerates for `path`: the
      compatibility store prepends "/M". */
  function Lookup(s: Source, path: string): string
  {
    if s.kind == LocalOld then "/M" + path else path
  }

  function JoinPath(parent: string, name: string): string
  {
    parent + "/" + name
  }

  /** What a typed read makes of a stored value. A numeric read
      (Read(long*)) parses text and fails on text that is not a number; a
      string read (Read(String*)) gives a number in decimal. */
  function ReadAs(v: Value, numeric: bool): (r: Option<Value>)
    ensures r.Some? ==> r.value.Number? == numeric
    ensures r == Some(v) <==> v.Number? == numeric
    ensures !numeric ==> r.Some?
  {
    match v
    case Number(n) => if numeric then Some(v) else Some(Text(IntToString(n)))
    case Text(t) =>
      if !numeric then Some(v)
      else match ParseLong(t)
        case Some(n) => Some(Number(n))
        case None => None
  }

  /** A number written by Write reads back as that number whichever way
      it is read, and a text spelling a number reads as that number. */
  lemma ReadAsRoundTrip(n: int)
    ensures ReadAs(Number(n), true) == Some(Number(n))
    ensures ReadAs(Number(n), false) == Some(Text(IntToString(n)))
    ensures ReadAs(Text(IntToString(n)), true) == Some(Number(n))
  {
    ParseIntToString(n);
  }

  /** Read on one store, as a number when `numeric`, else as a string. */
  function SourceRead(s: Source, path: string, numeric: bool): Option<Value>
  {
    var p := Lookup(s, path);
    if p in s.entries then ReadAs(s.entries[p], numeric) else None
  }

  /** HasEntry/HasGroup: not overridden by the compatibility store, so they
      query the path as given. */
  predicate Has(s: Source, item: Item, path: string)
  {
    match item
    case Entry => path in s.entries
    case Group => path in s.groups
  }

  /** Enumerating the entries (groups) of `parent` yields `name`. */
  predicate Lists(s: Source, item: Item, parent: string, name: string)
  {
    Has(s, item, JoinPath(Lookup(s, parent), name))
  }

  /** What RenameGroup and CopyEntry report: the compatibility store always
      succeeds without doing anything. */
  predicate Succeeds(s: Source)
  {
    s.kind == LocalOld || s.writable
  }

  /** Write on one store, and what it reports. */
  function WriteIn(s: Source, path: string, v: Value): (Source, bool)
  {
    if s.kind == LocalOld then (s, true)
    else if s.writable then (s.(entries := s.entries[path := v]), true)
    else (s, false)
  }

  /** DeleteEntry/DeleteGroup on one store, and what it reports; deleting a
      group takes everything under it along. */
  function DeleteIn(s: Source, item: Item, path: string): (Source, bool)
  {
    if s.kind == LocalOld then (s, true)
    else if !s.writable then (s, false)
    else match item
      case Entry => (s.(entries := s.entries - {path}), true)
      case Group =>
        var under := path + "/";
        var groups := set g | g in s.groups && g != path && !(under <= g);
        var entries := map k | k in s.entries && !(under <= k) :: s.entries[k];
        (s.(groups := groups, entries := entries), true)
  }

  /** The store after DeleteIn when `hit`, else unchanged. */
  function Deleted(s: Source, item: Item, path: string, hit: bool): Source
  {
    if hit then DeleteIn(s, item, path).0 else s
  }

  /** Enumeration under the parent of `path` finds its last component exactly
      when the store holds the path it looks up. */
  lemma ListsIffHas(s: Source, item: Item, path: string)
    requires '/' in path
    ensures Lists(s, item, BeforeLast(path, '/'), AfterLast(path, '/')) <==> Has(s, item, Lookup(s, path))
  {
    SplitAtLast(path, '/');
    if s.kind == LocalOld {
      assert JoinPath(Lookup(s, BeforeLast(path, '/')), AfterLast(path, '/')) == "/M" + path;
    }
  }

  /** A delete that succeeds on a real store leaves nothing at the path. */
  lemma DeleteInRemoves(s: Source, item: Item, path: string)
    requires s.kind != LocalOld
    ensures DeleteIn(s, item, path).1 <==> s.writable
    ensures DeleteIn(s, item, path).1 ==> !Has(DeleteIn(s, item, path).0, item, path)
  {
  }

  /** The compatibility store never changes and never fails. */
  lemma LocalOldIsReadOnly(s: Source, item: Item, path: string, v: Value)
    requires s.kind == LocalOld
    ensures WriteIn(s, path, v) == (s, true)
    ensures DeleteIn(s, item, path) == (s, true)
    ensures Succeeds(s)
  {
  }

  // ---------------------------------------------------------------------
  // Priority insertion
  // ---------------------------------------------------------------------

  /** A further source with its priority. */
  datatype Ranked<T> = Ranked(item: T, prio: int)

  /** Where a source of priority `prio` goes: after every source of no
      greater priority met so far, before the first strictly greater one. */
  function Slot<T>(rs: seq<Ranked<T>>, prio: int): (j: nat)
    ensures j <= |rs|
    ensures forall k :: 0 <= k < j ==> rs[k].prio <= prio
    ensures j < |rs| ==> rs[j].prio > prio
  {
    if rs == [] || rs[0].prio > prio then 0 else 1 + Slot(rs[1..], prio)
  }

  function Insert<T>(rs: seq<Ranked<T>>, r: Ranked<T>): seq<Ranked<T>>
  {
    var j := Slot(rs, r.prio);
    rs[..j] + [r] + rs[j..]
  }

  /** The list of further sources after inserting them one by one in
      enumeration order. */
  function Ordered<T>(rs: seq<Ranked<T>>): seq<Ranked<T>>
    decreases |rs|
  {
    if rs == [] then [] else Insert(Ordered(rs[..|rs| - 1]), rs[|rs| - 1])
  }

  predicate Sorted<T>(rs: seq<Ranked<T>>)
  {
    forall a, b :: 0 <= a < b < |rs| ==> rs[a].prio <= rs[b].prio
  }

  function Sources(rs: seq<Ranked<Source>>): (ss: seq<Source>)
    ensures |ss| == |rs|
    ensures forall k :: 0 <= k < |rs| ==> ss[k] == rs[k].item
  {
    seq(|rs|, k requires 0 <= k < |rs| => rs[k].item)
  }

  /** Insertion keeps the priorities non-decreasing. */
  lemma InsertKeepsSorted<T>(rs: seq<Ranked<T>>, r: Ranked<T>)
    requires Sorted(rs)
    ensures Sorted(Insert(rs, r))
  {
    var j := Slot(rs, r.prio);
    var out := Insert(rs, r);
    forall a, b | 0 <= a < b < |out|
      ensures out[a].prio <= out[b].prio
    {
      if b < j || a > j {
      } else if a == j {
        assert out[b] == rs[b - 1];
      } else if b == j {
        assert out[a] == rs[a];
      } else {
        assert out[a] == rs[a] && out[b] == rs[b - 1];
      }
    }
  }

  lemma OrderedSnoc<T>(rs: seq<Ranked<T>>, r: Ranked<T>)
    ensures Ordered(rs + [r]) == Insert(Ordered(rs), r)
  {
    assert (rs + [r])[..|rs|] == rs;
  }

  /** The further sources end up ordered by priority. */
  lemma {:induction false} OrderedIsSorted<T>(rs: seq<Ranked<T>>)
    ensures Sorted(Ordered(rs))
    decreases |rs|
  {
    if rs != [] {
      OrderedIsSorted(rs[..|rs| - 1]);
      InsertKeepsSorted(Ordered(rs[..|rs| - 1]), rs[|rs| - 1]);
    }
  }

  lemma InsertAddsOne<T>(rs: seq<Ranked<T>>, r: Ranked<T>)
    ensures multiset(Insert(rs, r)) == multiset(rs) + multiset{r}
  {
    var j := Slot(rs, r.prio);
    assert rs == rs[..j] + rs[j..];
    assert multiset(rs) == multiset(rs[..j]) + multiset(rs[j..]);
  }

  /** No source is lost or duplicated by the insertion. */
  lemma {:induction false} OrderedPermutes<T>(rs: seq<Ranked<T>>)
    ensures multiset(Ordered(rs)) == multiset(rs)
    decreases |rs|
  {
    if rs != [] {
      var init, last := rs[..|rs| - 1], rs[|rs| - 1];
      assert rs == init + [last];
      OrderedSnoc(init, last);
      OrderedPermutes(init);
      InsertAddsOne(Ordered(init), last);
    }
  }

  /** Ties keep enumeration order: with one priority for all, the list is
      the enumeration itself. */
  lemma {:induction false} EqualPrioritiesKeepOrder<T>(rs: seq<Ranked<T>>, p: int)
    requires forall k :: 0 <= k < |rs| ==> rs[k].prio == p
    ensures Ordered(rs) == rs
    decreases |rs|
  {
    if rs != [] {
      var init := rs[..|rs| - 1];
      EqualPrioritiesKeepOrder(init, p);
      var j := Slot(init, p);
      assert j == |init|;
      assert rs == init + [rs[|rs| - 1]];
    }
  }

  /** FindSlot: the walk over the priorities list of the constructor. */
  method FindSlot<T>(rs: seq<Ranked<T>>, prio: int) returns (j: nat)
    ensures j == Slot(rs, prio)
  {
    j := 0;
    while j < |rs| && rs[j].prio <= prio
      invariant j <= |rs|
      invariant Slot(rs, prio) == j + Slot(rs[j..], prio)
    {
      assert rs[j..][1..] == rs[j + 1..];
      j := j + 1;
    }
  }

  // ---------------------------------------------------------------------
  // The constructor's list
  // ---------------------------------------------------------------------

  /** The priority every further source gets: read from one fixed path of
      the local store, INT_MAX when it is missing. */
  function PriorityOf(local: Source, prioPath: string): int
  {
    match SourceRead(local, prioPath, true)
    case Some(Number(n)) => n
    case _ => IntMax
  }

  predicate UsesOldConfig(local: Source)
  {
    SourceRead(local, VersionPath, false).Some?
  }

  /** The compatibility view of the same file. */
  function OldView(local: Source): Source
  {
    local.(kind := LocalOld)
  }

  /** The further sources in enumeration order, those Create refused left
      out. */
  function Created(local: Source, section: string, names: seq<string>, prioPath: string,
                   create: string -> Option<Source>): seq<Ranked<Source>>
    decreases |names|
  {
    if names == [] then []
    else
      Created(local, section, names[..|names| - 1], prioPath, create) +
      match create(section + "/" + names[|names| - 1])
      case Some(c) => [Ranked(c, PriorityOf(local, prioPath))]
      case None => []
  }

  /** The list the constructor builds. */
  function InitialSources(local: Source, section: string, names: seq<string>, prioPath: string,
                          create: string -> Option<Source>): seq<Source>
  {
    [local] + (if UsesOldConfig(local) then [OldView(local)] else [])
      + Sources(Ordered(Created(local, section, names, prioPath, create)))
  }

  ghost predicate MakesRemotes(create: string -> Option<Source>)
  {
    forall p :: create(p).Some? ==> create(p).value.kind == Remote
  }

  lemma {:induction false} CreatedAreRemote(local: Source, section: string, names: seq<string>,
                                             prioPath: string, create: string -> Option<Source>)
    requires MakesRemotes(create)
    ensures forall r :: r in Created(local, section, names, prioPath, create) ==> r.item.kind == Remote
    ensures forall r :: r in Created(local, section, names, prioPath, create) ==> r.prio == PriorityOf(local, prioPath)
    decreases |names|
  {
    if names != [] {
      CreatedAreRemote(local, section, names[..|names| - 1], prioPath, create);
    }
  }

  /** The local store is first; the compatibility view is second exactly
      when the local file holds the version entry. */
  lemma LocalFirstOldSecond(local: Source, section: string, names: seq<string>, prioPath: string,
                            create: string -> Option<Source>)
    requires local.kind == Local
    requires MakesRemotes(create)
    ensures InitialSources(local, section, names, prioPath, create)[0] == local
    ensures var ss := InitialSources(local, section, names, prioPath, create);
      (|ss| >= 2 && ss[1].kind == LocalOld) <==> UsesOldConfig(local)
    ensures forall k :: 2 <= k < |InitialSources(local, section, names, prioPath, create)| ==>
      InitialSources(local, section, names, prioPath, create)[k].kind == Remote
  {
    var created := Created(local, section, names, prioPath, create);
    var others := Ordered(created);
    CreatedAreRemote(local, section, names, prioPath, create);
    OrderedPermutes(created);
    forall k | 0 <= k < |others|
      ensures others[k].item.kind == Remote
    {
      assert others[k] in multiset(others);
    }
    var ss := InitialSources(local, section, names, prioPath, create);
    var prefix := [local] + (if UsesOldConfig(local) then [OldView(local)] else []);
    assert ss == prefix + Sources(others);
    forall k | |prefix| <= k < |ss|
      ensures ss[k].kind == Remote
    {
      assert ss[k] == others[k - |prefix|].item;
    }
  }

  /** As written the priority is read from one fixed path, so every further
      source gets the same one and they stay in enumeration order. */
  lemma FurtherSourcesInEnumerationOrder(local: Source, section: string, names: seq<string>,
                                         prioPath: string, create: string -> Option<Source>)
    requires MakesRemotes(create)
    ensures Ordered(Created(local, section, names, prioPath, create)) == Created(local, section, names, prioPath, create)
  {
    var created := Created(local, section, names, prioPath, create);
    CreatedAreRemote(local, section, names, prioPath, create);
    forall k | 0 <= k < |created|
      ensures created[k].prio == PriorityOf(local, prioPath)
    {
      assert created[k] in created;
    }
    EqualPrioritiesKeepOrder(created, PriorityOf(local, prioPath));
  }

  lemma CreatedStep(local: Source, section: string, names: seq<string>, n: nat, prioPath: string,
                    create: string -> Option<Source>)
    requires n < |names|
    ensures Created(local, section, names[..n + 1], prioPath, create) ==
      Created(local, section, names[..n], prioPath, create) +
      match create(section + "/" + names[n])
      case Some(c) => [Ranked(c, PriorityOf(local, prioPath))]
      case None => []
  {
    assert names[..n + 1][..n] == names[..n];
  }

  /** The constructor's loop over the enumerated groups: each source Create
      makes is inserted at its priority slot. */
  method RankSources(local: Source, section: string, names: seq<string>, prioPath: string,
                     create: string -> Option<Source>) returns (ranked: seq<Ranked<Source>>)
    ensures ranked == Ordered(Created(local, section, names, prioPath, create))
  {
    ranked := [];
    ghost var created: seq<Ranked<Source>> := [];
    var n := 0;
    while n < |names|
      invariant n <= |names|
      invariant created == Created(local, section, names[..n], prioPath, create)
      invariant ranked == Ordered(created)
    {
      CreatedStep(local, section, names, n, prioPath, create);
      var config := create(section + "/" + names[n]);
      if config.Some? {
        var r := Ranked(config.value, PriorityOf(local, prioPath));
        var j := FindSlot(ranked, r.prio);
        OrderedSnoc(created, r);
        ranked := ranked[..j] + [r] + ranked[j..];
        created := created + [r];
      }
      n := n + 1;
    }
    assert names[..n] == names;
  }

  // ---------------------------------------------------------------------
  // First-hit queries
  // ---------------------------------------------------------------------

  /** The first store that can read `path` as asked, or the end. */
  function FirstRead(ss: seq<Source>, path: string, numeric: bool): (i: nat)
    ensures i <= |ss|
    ensures forall k :: 0 <= k < i ==> SourceRead(ss[k], path, numeric).None?
    ensures i < |ss| ==> SourceRead(ss[i], path, numeric).Some?
  {
    if ss == [] || SourceRead(ss[0], path, numeric).Some? then 0 else 1 + FirstRead(ss[1..], path, numeric)
  }

  /** What reading through all the stores yields. */
  function ReadAll(ss: seq<Source>, path: string, numeric: bool): Option<Value>
  {
    var i := FirstRead(ss, path, numeric);
    if i < |ss| then SourceRead(ss[i], path, numeric) else None
  }

  /** The first store that has `path`, or the end. */
  function FirstHas(ss: seq<Source>, item: Item, path: string): (i: nat)
    ensures i <= |ss|
    ensures forall k :: 0 <= k < i ==> !Has(ss[k], item, path)
    ensures i < |ss| ==> Has(ss[i], item, path)
  {
    if ss == [] || Has(ss[0], item, path) then 0 else 1 + FirstHas(ss[1..], item, path)
  }

  /** A read through all stores fails exactly when no store can read the
      value as asked; a string read fails exactly when no store holds the
      path; what it yields has the type asked for. */
  lemma ReadAllNoneIff(ss: seq<Source>, path: string, numeric: bool)
    ensures ReadAll(ss, path, numeric).None? <==> forall k :: 0 <= k < |ss| ==> SourceRead(ss[k], path, numeric).None?
    ensures !numeric ==> (ReadAll(ss, path, false).None? <==> forall k :: 0 <= k < |ss| ==> Lookup(ss[k], path) !in ss[k].entries)
    ensures ReadAll(ss, path, numeric).Some? ==> ReadAll(ss, path, numeric).value.Number? == numeric
  {
  }

  /** A numeric read passes over a store whose entry is text that is not a
      number and goes on to the next store, where a string read stops at
      that entry. */
  lemma NumericReadFallsThrough(ss: seq<Source>, path: string)
    requires ss != [] && Lookup(ss[0], path) in ss[0].entries
    requires ss[0].entries[Lookup(ss[0], path)].Text?
    requires ParseLong(ss[0].entries[Lookup(ss[0], path)].s).None?
    ensures ReadAll(ss, path, true) == ReadAll(ss[1..], path, true)
    ensures ReadAll(ss, path, false) == Some(ss[0].entries[Lookup(ss[0], path)])
  {
    assert SourceRead(ss[0], path, true).None?;
    var i := FirstRead(ss[1..], path, true);
    assert FirstRead(ss, path, true) == 1 + i;
    if i < |ss[1..]| {
      assert ss[1 + i] == ss[1..][i];
    }
  }

  // ---------------------------------------------------------------------
  // Write
  // ---------------------------------------------------------------------

  /** The stores after Write and what it reports; `target` None means
      the local store, skipping a value already visible. */
  function WriteAll(ss: seq<Source>, path: string, v: Value, target: Option<nat>): (seq<Source>, bool)
    requires target.Some? ==> target.value < |ss|
  {
    match target
    case Some(t) =>
      var (s, ok) := WriteIn(ss[t], path, v);
      (ss[t := s], ok)
    case None =>
      if ss == [] then (ss, false)
      else if ReadAll(ss, path, v.Number?) == Some(v) then (ss, true)
      else
        var (s, ok) := WriteIn(ss[0], path, v);
        (ss[0 := s], ok)
  }

  /** After a successful default Write the value is what a read yields. */
  lemma WriteMakesVisible(ss: seq<Source>, path: string, v: Value)
    requires ss != [] && ss[0].kind != LocalOld
    requires WriteAll(ss, path, v, None).1
    ensures ReadAll(WriteAll(ss, path, v, None).0, path, v.Number?) == Some(v)
  {
    if ReadAll(ss, path, v.Number?) != Some(v) {
      var ss' := WriteAll(ss, path, v, None).0;
      assert SourceRead(ss'[0], path, v.Number?) == Some(v);
      assert FirstRead(ss', path, v.Number?) == 0;
    }
  }

  /** A default Write touches at most the local store, and none at all when
      the value is already visible. */
  lemma WriteTouchesOnlyLocal(ss: seq<Source>, path: string, v: Value)
    ensures |WriteAll(ss, path, v, None).0| == |ss|
    ensures forall k :: 1 <= k < |ss| ==> WriteAll(ss, path, v, None).0[k] == ss[k]
    ensures ReadAll(ss, path, v.Number?) == Some(v) ==> WriteAll(ss, path, v, None) == (ss, ss != [])
  {
  }

  // ---------------------------------------------------------------------
  // The multiplexer's delete loop
  // ---------------------------------------------------------------------

  /** wxConfigMultiplexer::DeleteEntry/DeleteGroup as written: find the first
      store having the path, delete there, and start over. `fuel` bounds the
      rounds; None means it ran out. */
  function DeleteLoop(ss: seq<Source>, item: Item, path: string, found: bool, fuel: nat): Option<(seq<Source>, bool)>
    decreases fuel
  {
    if fuel == 0 then None
    else
      var i := FirstHas(ss, item, path);
      if i == |ss| then Some((ss, found))
      else
        var (s, ok) := DeleteIn(ss[i], item, path);
        if !ok then Some((ss[i := s], false))
        else DeleteLoop(ss[i := s], item, path, true, fuel - 1)
  }

  /** A local file that holds "/a" and a version entry, so that the
      constructor also adds its compatibility view. */
  function SpinLocal(): Source
  {
    Source(Local, map["/a" := Text("x"), VersionPath := Text("1")], {}, true, true)
  }

  /** The file and its compatibility view: the view's HasEntry sees "/a"
      too, but its delete does nothing. */
  function SpinExample(): seq<Source>
  {
    [SpinLocal(), OldView(SpinLocal())]
  }

  /** The example is the list the constructor builds from that file when no
      further source is configured. */
  lemma SpinExampleIsBuilt(section: string, prioPath: string, create: string -> Option<Source>)
    ensures SpinExample() == InitialSources(SpinLocal(), section, [], prioPath, create)
  {
    assert VersionPath in SpinLocal().entries;
    assert UsesOldConfig(SpinLocal());
  }

  lemma {:induction false} DeleteLoopSpinsOnView(fuel: nat)
    ensures DeleteLoop([DeleteIn(SpinLocal(), Entry, "/a").0, OldView(SpinLocal())], Entry, "/a", true, fuel) == None
    decreases fuel
  {
    var ss := [DeleteIn(SpinLocal(), Entry, "/a").0, OldView(SpinLocal())];
    if fuel > 0 {
      assert !Has(ss[0], Entry, "/a");
      assert FirstHas(ss, Entry, "/a") == 1;
      assert ss[1 := DeleteIn(ss[1], Entry, "/a").0] == ss;
      DeleteLoopSpinsOnView(fuel - 1);
    }
  }

  /** As written, deleting "/a" never ends however many rounds it is given. */
  lemma DeleteLoopSpins(fuel: nat)
    ensures DeleteLoop(SpinExample(), Entry, "/a", false, fuel) == None
  {
    var ss := SpinExample();
    if fuel > 0 {
      assert FirstHas(ss, Entry, "/a") == 0;
      var after := ss[0 := DeleteIn(ss[0], Entry, "/a").0];
      assert after == [DeleteIn(SpinLocal(), Entry, "/a").0, OldView(SpinLocal())];
      DeleteLoopSpinsOnView(fuel - 1);
    }
  }

  /** The corrected loop: every store from `i` on is visited once, in order;
      the first failing delete ends it with false. */
  function DeleteEach(ss: seq<Source>, item: Item, path: string, i: nat, found: bool): (r: (seq<Source>, bool))
    requires i <= |ss|
    ensures |r.0| == |ss|
    decreases |ss| - i
  {
    if i == |ss| then (ss, found)
    else if !Has(ss[i], item, path) then DeleteEach(ss, item, path, i + 1, found)
    else
      var (s, ok) := DeleteIn(ss[i], item, path);
      if !ok then (ss[i := s], false)
      else DeleteEach(ss[i := s], item, path, i + 1, true)
  }

  /** The corrected delete succeeds exactly when some store had the path and
      every store that had it deleted it. */
  lemma {:induction false} DeleteEachSucceedsIff(ss: seq<Source>, item: Item, path: string, i: nat, found: bool)
    requires i <= |ss|
    ensures DeleteEach(ss, item, path, i, found).1 <==>
      (found || exists k :: i <= k < |ss| && Has(ss[k], item, path))
      && forall k :: i <= k < |ss| && Has(ss[k], item, path) ==> DeleteIn(ss[k], item, path).1
    decreases |ss| - i
  {
    if i < |ss| {
      if !Has(ss[i], item, path) {
        DeleteEachSucceedsIff(ss, item, path, i + 1, found);
      } else {
        var (s, ok) := DeleteIn(ss[i], item, path);
        if ok {
          DeleteEachSucceedsIff(ss[i := s], item, path, i + 1, true);
          assert forall k :: i < k < |ss| ==> ss[i := s][k] == ss[k];
        }
      }
    }
  }

  /** When it succeeds, every store that had the path went through its
      delete and all others are untouched; so no real store still has it. */
  lemma {:induction false} DeleteEachEffect(ss: seq<Source>, item: Item, path: string, i: nat, found: bool)
    requires i <= |ss|
    requires DeleteEach(ss, item, path, i, found).1
    ensures forall k :: 0 <= k < |ss| ==>
      DeleteEach(ss, item, path, i, found).0[k] == Deleted(ss[k], item, path, i <= k && Has(ss[k], item, path))
    decreases |ss| - i
  {
    if i < |ss| {
      if !Has(ss[i], item, path) {
        DeleteEachEffect(ss, item, path, i + 1, found);
      } else {
        var (s, ok) := DeleteIn(ss[i], item, path);
        DeleteEachEffect(ss[i := s], item, path, i + 1, true);
      }
    }
  }

  lemma DeleteEachClears(ss: seq<Source>, item: Item, path: string)
    requires DeleteEach(ss, item, path, 0, false).1
    ensures forall k :: 0 <= k < |ss| && ss[k].kind != LocalOld ==>
      !Has(DeleteEach(ss, item, path, 0, false).0[k], item, path)
  {
    DeleteEachEffect(ss, item, path, 0, false);
    forall k | 0 <= k < |ss| && ss[k].kind != LocalOld
      ensures !Has(DeleteEach(ss, item, path, 0, false).0[k], item, path)
    {
      DeleteEachSucceedsIff(ss, item, path, 0, false);
      DeleteInRemoves(ss[k], item, path);
    }
  }

  // ---------------------------------------------------------------------
  // The fan-out operations' results
  // ---------------------------------------------------------------------

  /** The RenameGroup requests Rename passes on, one per store whose parent
      group lists the old name. */
  function RenameCalls(ss: seq<Source>, pathOld: string, nameNew: string): seq<Call>
    decreases |ss|
  {
    if ss == [] then []
    else
      RenameCalls(ss[..|ss| - 1], pathOld, nameNew) +
      if Lists(ss[|ss| - 1], Group, BeforeLast(pathOld, '/'), AfterLast(pathOld, '/'))
      then [RenameGroupCall(|ss| - 1, pathOld, nameNew)] else []
  }

  /** How many of the stores listing `name` under `parent` rename it. */
  function Renamed(ss: seq<Source>, parent: string, name: string): nat
    decreases |ss|
  {
    if ss == [] then 0
    else
      var last := ss[|ss| - 1];
      Renamed(ss[..|ss| - 1], parent, name) + if Lists(last, Group, parent, name) && Succeeds(last) then 1 else 0
  }

  lemma {:induction false} RenamedPositiveIff(ss: seq<Source>, parent: string, name: string)
    ensures Renamed(ss, parent, name) > 0 <==>
      exists k :: 0 <= k < |ss| && Lists(ss[k], Group, parent, name) && Succeeds(ss[k])
    decreases |ss|
  {
    if ss != [] {
      var init := ss[..|ss| - 1];
      RenamedPositiveIff(init, parent, name);
      if Renamed(init, parent, name) > 0 {
        var k :| 0 <= k < |init| && Lists(init[k], Group, parent, name) && Succeeds(init[k]);
        assert ss[k] == init[k];
      }
      if exists k :: 0 <= k < |ss| && Lists(ss[k], Group, parent, name) && Succeeds(ss[k]) {
        var k :| 0 <= k < |ss| && Lists(ss[k], Group, parent, name) && Succeeds(ss[k]);
        if k < |init| {
          assert init[k] == ss[k];
        }
      }
    }
  }

  lemma RenameStep(ss: seq<Source>, i: nat, pathOld: string, nameNew: string)
    requires i < |ss|
    ensures var parent, name := BeforeLast(pathOld, '/'), AfterLast(pathOld, '/');
      && RenameCalls(ss[..i + 1], pathOld, nameNew) == RenameCalls(ss[..i], pathOld, nameNew) +
           (if Lists(ss[i], Group, parent, name) then [RenameGroupCall(i, pathOld, nameNew)] else [])
      && Renamed(ss[..i + 1], parent, name) == Renamed(ss[..i], parent, name) +
           (if Lists(ss[i], Group, parent, name) && Succeeds(ss[i]) then 1 else 0)
  {
    assert ss[..i + 1][..i] == ss[..i];
  }

  function CopyCalls(n: nat, pathSrc: string, pathDst: string): seq<Call>
  {
    seq(n, k requires 0 <= k < n => CopyGroupCall(k, pathSrc, pathDst))
  }

  // ---------------------------------------------------------------------
  // The list of stores
  // ---------------------------------------------------------------------

  class AllConfigSources {
    /** The stores in lookup order. */
    var sources: seq<Source>
    /** The rename and copy requests passed on to the stores. */
    var calls: seq<Call>

    /** `local` is None when the local file could not be opened. `names`
        are the groups enumerated under `section`, in enumeration order. */
    constructor(local: Option<Source>, section: string, names: seq<string>, prioPath: string,
                create: string -> Option<Source>)
      ensures local.None? ==> sources == []
      ensures local.Some? ==> sources == InitialSources(local.value, section, names, prioPath, create)
      ensures calls == []
    {
      calls := [];
      if local.None? {
        sources := [];
      } else {
        var loc := local.value;
        var prefix := [loc];
        if SourceRead(loc, VersionPath, false).Some? {
          prefix := prefix + [OldView(loc)];
        }
        var ranked := RankSources(loc, section, names, prioPath, create);
        sources := prefix + Sources(ranked);
      }
    }

    /** Find: the first store that has the path, or the end. */
    method Find(item: Item, path: string) returns (i: nat)
      ensures i == FirstHas(sources, item, path)
    {
      i := 0;
      while i < |sources| && !Has(sources[i], item, path)
        invariant i <= |sources|
        invariant FirstHas(sources, item, path) == i + FirstHas(sources[i..], item, path)
      {
        assert sources[i..][1..] == sources[i + 1..];
        i := i + 1;
      }
    }

    /** Read: the value of the first store that can read `path/key` as a
        number when `numeric` (a LookupData of type LD_LONG), else as a
        string. */
    method Read(path: string, key: string, numeric: bool) returns (v: Option<Value>)
      ensures v == ReadAll(sources, path + "/" + key, numeric)
    {
      var full := path + "/" + key;
      var i := 0;
      v := None;
      while i < |sources|
        invariant i <= |sources|
        invariant v == None
        invariant FirstRead(sources, full, numeric) == i + FirstRead(sources[i..], full, numeric)
      {
        assert sources[i..][0] == sources[i];
        assert sources[i..][1..] == sources[i + 1..];
        v := SourceRead(sources[i], full, numeric);
        if v.Some? {
          return;
        }
        i := i + 1;
      }
    }

    /** Write: to `target`, or by default to the local store unless the value
        is already visible. */
    method Write(path: string, key: string, v: Value, target: Option<nat>) returns (ok: bool)
      requires target.Some? ==> target.value < |sources|
      modifies this
      ensures (sources, ok) == WriteAll(old(sources), path + "/" + key, v, target)
      ensures calls == old(calls)
    {
      var full := path + "/" + key;
      var t := 0;
      if target.None? {
        if sources == [] {
          return false;
        }
        var seen := Read(path, key, v.Number?);
        if seen == Some(v) {
          return true;
        }
      } else {
        t := target.value;
      }
      var (s, r) := WriteIn(sources[t], full, v);
      sources := sources[t := s];
      ok := r;
    }

    /** DeleteEntry / DeleteGroup: every store whose parent group lists the
        last component deletes the path; the results are AND-ed. */
    method Delete(item: Item, path: string) returns (ok: bool)
      modifies this
      ensures |sources| == |old(sources)| && calls == old(calls)
      ensures forall k :: 0 <= k < |sources| ==>
        sources[k] == Deleted(old(sources)[k], item, path, Lists(old(sources)[k], item, BeforeLast(path, '/'), AfterLast(path, '/')))
      ensures ok <==> forall k :: 0 <= k < |sources| ==>
        Lists(old(sources)[k], item, BeforeLast(path, '/'), AfterLast(path, '/')) ==>
        DeleteIn(old(sources)[k], item, path).1
    {
      var parent, name := BeforeLast(path, '/'), AfterLast(path, '/');
      ok := true;
      var i := 0;
      while i < |sources|
        invariant i <= |sources| == |old(sources)|
        invariant calls == old(calls)
        invariant forall k :: 0 <= k < i ==>
          sources[k] == Deleted(old(sources)[k], item, path, Lists(old(sources)[k], item, parent, name))
        invariant forall k :: i <= k < |sources| ==> sources[k] == old(sources)[k]
        invariant ok <==> forall k :: 0 <= k < i ==>
          Lists(old(sources)[k], item, parent, name) ==> DeleteIn(old(sources)[k], item, path).1
      {
        if Lists(sources[i], item, parent, name) {
          var (s, r) := DeleteIn(sources[i], item, path);
          sources := sources[i := s];
          ok := ok && r;
        }
        i := i + 1;
      }
    }

    /** Rename: true when no store failed and at least one renamed. */
    method Rename(pathOld: string, nameNew: string) returns (ok: bool)
      modifies this
      ensures sources == old(sources)
      ensures calls == old(calls) + RenameCalls(sources, pathOld, nameNew)
      ensures ok <==>
        && (forall k :: 0 <= k < |sources| && Lists(sources[k], Group, BeforeLast(pathOld, '/'), AfterLast(pathOld, '/'))
              ==> Succeeds(sources[k]))
        && (exists k :: 0 <= k < |sources| && Lists(sources[k], Group, BeforeLast(pathOld, '/'), AfterLast(pathOld, '/'))
              && Succeeds(sources[k]))
    {
      var parent, name := BeforeLast(pathOld, '/'), AfterLast(pathOld, '/');
      var ss := sources;
      var requests: seq<Call> := [];
      var rc := true;
      var numRenamed: nat := 0;
      var i := 0;
      while i < |ss|
        invariant i <= |ss|
        invariant sources == ss && calls == old(calls)
        invariant requests == RenameCalls(ss[..i], pathOld, nameNew)
        invariant rc <==> forall k :: 0 <= k < i && Lists(ss[k], Group, parent, name) ==> Succeeds(ss[k])
        invariant numRenamed == Renamed(ss[..i], parent, name)
      {
        RenameStep(ss, i, pathOld, nameNew);
        if Lists(ss[i], Group, parent, name) {
          requests := requests + [RenameGroupCall(i, pathOld, nameNew)];
          if Succeeds(ss[i]) {
            numRenamed := numRenamed + 1;
          } else {
            rc := false;
          }
        }
        i := i + 1;
      }
      assert ss[..i] == ss;
      RenamedPositiveIff(ss, parent, name);
      calls := calls + requests;
      ok := rc && numRenamed > 0;
    }

    /** CopyGroup: every store copies the group; the results are AND-ed. */
    method CopyGroup(pathSrc: string, pathDst: string) returns (ok: bool)
      modifies this
      ensures sources == old(sources)
      ensures calls == old(calls) + CopyCalls(|sources|, pathSrc, pathDst)
      ensures ok <==> forall k :: 0 <= k < |sources| ==> Succeeds(sources[k])
    {
      ok := true;
      var i := 0;
      while i < |sources|
        invariant i <= |sources|
        invariant sources == old(sources)
        invariant calls == old(calls) + CopyCalls(i, pathSrc, pathDst)
        invariant ok <==> forall k :: 0 <= k < i ==> Succeeds(sources[k])
      {
        assert CopyCalls(i + 1, pathSrc, pathDst) == CopyCalls(i, pathSrc, pathDst) + [CopyGroupCall(i, pathSrc, pathDst)];
        calls := calls + [CopyGroupCall(i, pathSrc, pathDst)];
        ok := ok && Succeeds(sources[i]);
        i := i + 1;
      }
    }

    /** FlushAll: every store flushes; the results are AND-ed. */
    method FlushAll() returns (ok: bool)
      ensures ok <==> forall k :: 0 <= k < |sources| ==> sources[k].flushes
    {
      ok := true;
      var i := 0;
      while i < |sources|
        invariant i <= |sources|
        invariant ok <==> forall k :: 0 <= k < i ==> sources[k].flushes
      {
        ok := ok && sources[i].flushes;
        i := i + 1;
      }
    }
  }

  /** The wxConfig facade over the stores, with its current path. */
  class ConfigMultiplexer {
    const all: AllConfigSources
    var path: string

    constructor(all: AllConfigSources)
      ensures this.all == all && path == []
    {
      this.all := all;
      path := [];
    }

    method SetPath(p: string)
      modifies this
      ensures path == p
    {
      path := p;
    }

    /** An absolute key as it is, a relative one under the current path. */
    function Resolve(key: string): (r: string)
      reads this
      ensures |key| > 0 && key[0] == '/' ==> r == key
      ensures !(|key| > 0 && key[0] == '/') ==> r == path + "/" + key
    {
      if |key| > 0 && key[0] == '/' then key else path + "/" + key
    }

    /** DeleteEntry / DeleteGroup, corrected to visit each store once: every
        store having the path deletes it; false when none had it or a delete
        failed. */
    method Delete(item: Item, key: string) returns (ok: bool)
      modifies all
      ensures (all.sources, ok) == DeleteEach(old(all.sources), item, Resolve(key), 0, false)
      ensures all.calls == old(all.calls)
    {
      var p := Resolve(key);
      var found := false;
      var i := 0;
      ghost var ss0 := all.sources;
      while i < |all.sources|
        invariant i <= |all.sources| == |ss0|
        invariant all.calls == old(all.calls)
        invariant DeleteEach(all.sources, item, p, i, found) == DeleteEach(ss0, item, p, 0, false)
      {
        if Has(all.sources[i], item, p) {
          found := true;
          var (s, r) := DeleteIn(all.sources[i], item, p);
          all.sources := all.sources[i := s];
          if !r {
            return false;
          }
        }
        i := i + 1;
      }
      ok := found;
    }

    /** DeleteAll: refused, everything stays. */
    method DeleteAll() returns (ok: bool)
      ensures !ok
    {
      ok := false;
    }
  }
}
