/** The value-codec registry: a sorted array with an index, against linear search. */
module Registry {
  import opened Basics

  /** IDs and registration sources compare lexicographically. */
  type Key = seq<nat>

  datatype Registration<+D> = Registration(id: Key, descriptor: D, source: Key)

  datatype RegistryError = DuplicateId(id: Key, sources: seq<Key>)

  // ---------------------------------------------------------------------------------------------------------
  // Order
  // ---------------------------------------------------------------------------------------------------------

  predicate AtMost(a: Key, b: Key) {
    a == [] || (b != [] && (a[0] < b[0] || (a[0] == b[0] && AtMost(a[1..], b[1..]))))
  }

  /** The keys agree before position `k`, and `a` is smaller there. */
  ghost predicate SmallerAt(a: Key, b: Key, k: nat) {
    k < |a| && k < |b| && a[..k] == b[..k] && a[k] < b[k]
  }

  /** The order by positions: a prefix, or smaller where the keys first differ. */
  lemma {:induction false} AtMostIsLexicographic(a: Key, b: Key)
    ensures AtMost(a, b) <==> a <= b || exists k: nat :: SmallerAt(a, b, k)
  {
    if a != [] && b != [] {
      AtMostIsLexicographic(a[1..], b[1..]);
      if a[0] < b[0] {
        assert SmallerAt(a, b, 0);
      } else if a[0] == b[0] {
        assert a == [a[0]] + a[1..] && b == [b[0]] + b[1..];
        if k: nat :| SmallerAt(a[1..], b[1..], k) {
          assert SmallerAt(a, b, k + 1);
        }
        if k: nat :| SmallerAt(a, b, k) {
          assert a[..k] == [a[0]] + a[1..][..k - 1] && b[..k] == [b[0]] + b[1..][..k - 1];
          assert a[1..][..k - 1] == a[..k][1..] && b[1..][..k - 1] == b[..k][1..];
          assert SmallerAt(a[1..], b[1..], k - 1);
        }
        assert a <= b <==> a[1..] <= b[1..];
      } else {
        if k: nat :| SmallerAt(a, b, k) && 0 < k {
          AgreeAtHead(a, b, k);
        }
      }
    }
  }

  lemma AgreeAtHead(a: Key, b: Key, k: nat)
    requires SmallerAt(a, b, k) && 0 < k
    ensures a[0] == b[0]
  {
    assert a[..k][0] == b[..k][0];
  }

  lemma {:induction false} AtMostTotal(a: Key, b: Key)
    ensures AtMost(a, b) || AtMost(b, a)
    ensures AtMost(a, b) && AtMost(b, a) ==> a == b
  {
    if a != [] && b != [] {
      AtMostTotal(a[1..], b[1..]);
      assert a == [a[0]] + a[1..] && b == [b[0]] + b[1..];
    }
  }

  lemma {:induction false} AtMostTransitive(a: Key, b: Key, c: Key)
    requires AtMost(a, b) && AtMost(b, c)
    ensures AtMost(a, c)
  {
    if a != [] && a[0] == b[0] == c[0] {
      AtMostTransitive(a[1..], b[1..], c[1..]);
    }
  }

  // ---------------------------------------------------------------------------------------------------------
  // Sorting
  // ---------------------------------------------------------------------------------------------------------

  ghost predicate SortedBy<A>(key: A -> Key, s: seq<A>) {
    forall i, j | 0 <= i < j < |s| :: AtMost(key(s[i]), key(s[j]))
  }

  function Insert<A>(key: A -> Key, x: A, s: seq<A>): seq<A> {
    if s == [] || AtMost(key(x), key(s[0])) then [x] + s else [s[0]] + Insert(key, x, s[1..])
  }

  lemma {:induction false} InsertSorts<A>(key: A -> Key, x: A, s: seq<A>)
    requires SortedBy(key, s)
    ensures SortedBy(key, Insert(key, x, s)) && multiset(Insert(key, x, s)) == multiset(s) + multiset{x}
  {
    if s == [] {
    } else if AtMost(key(x), key(s[0])) {
      forall j | 0 <= j < |s| ensures AtMost(key(x), key(s[j])) {
        if j > 0 {
          AtMostTransitive(key(x), key(s[0]), key(s[j]));
        }
      }
    } else {
      InsertSorts(key, x, s[1..]);
      var rest := Insert(key, x, s[1..]);
      assert s == [s[0]] + s[1..];
      AtMostTotal(key(x), key(s[0]));
      forall j | 0 <= j < |rest| ensures AtMost(key(s[0]), key(rest[j])) {
        assert rest[j] in multiset(rest);
        if rest[j] != x {
          assert rest[j] in multiset(s[1..]);
        }
      }
    }
  }

  /** The library's sort: any sorted rearrangement that keeps the order of equal keys. */
  function Sort<A>(key: A -> Key, s: seq<A>): seq<A> {
    if s == [] then [] else Insert(key, s[0], Sort(key, s[1..]))
  }

  lemma {:induction false} SortSorts<A>(key: A -> Key, s: seq<A>)
    ensures SortedBy(key, Sort(key, s)) && multiset(Sort(key, s)) == multiset(s)
  {
    hide Insert, AtMost;
    if s != [] {
      SortSorts(key, s[1..]);
      InsertSorts(key, s[0], Sort(key, s[1..]));
      assert s == [s[0]] + s[1..];
    }
  }

  function Without<A>(s: seq<A>, i: nat): seq<A>
    requires i < |s|
  {
    s[..i] + s[i + 1..]
  }

  lemma WithoutOne<A>(s: seq<A>, i: nat)
    requires i < |s|
    ensures multiset(Without(s, i)) == multiset(s) - multiset{s[i]}
  {
    assert s == s[..i] + [s[i]] + s[i + 1..];
  }

  lemma WithoutFirst<A>(s: seq<A>)
    requires s != []
    ensures multiset(s[1..]) == multiset(s) - multiset{s[0]}
  {
    assert s == [s[0]] + s[1..];
  }

  lemma SameSize<A>(a: seq<A>, b: seq<A>)
    requires multiset(a) == multiset(b)
    ensures |a| == |b|
  {
    assert |a| == |multiset(a)| && |b| == |multiset(b)|;
  }

  lemma Located<A>(x: A, s: seq<A>) returns (i: nat)
    requires x in multiset(s)
    ensures i < |s| && s[i] == x
  {
    i :| i < |s| && s[i] == x;
  }

  /** The key tells elements apart. */
  ghost predicate Distinguishes<A(!new)>(key: A -> Key, s: seq<A>) {
    forall x, y | x in s && y in s && key(x) == key(y) :: x == y
  }

  /** A sorted sequence is determined by its elements, when the key tells them apart. */
  lemma {:induction false} SortedUnique<A(!new)>(key: A -> Key, a: seq<A>, b: seq<A>)
    requires SortedBy(key, a) && SortedBy(key, b) && multiset(a) == multiset(b) && Distinguishes(key, a)
    ensures a == b
  {
    SameSize(a, b);
    if a != [] {
      FirstElementsAgree(key, a, b);
      WithoutFirst(a);
      WithoutFirst(b);
      SortedUnique(key, a[1..], b[1..]);
      assert a == [a[0]] + a[1..] && b == [b[0]] + b[1..];
    }
  }

  lemma FirstElementsAgree<A(!new)>(key: A -> Key, a: seq<A>, b: seq<A>)
    requires SortedBy(key, a) && SortedBy(key, b) && multiset(a) == multiset(b) && Distinguishes(key, a)
    requires a != [] && b != []
    ensures a[0] == b[0]
  {
    assert a[0] in multiset(a) && b[0] in multiset(b);
    var i := Located(a[0], b);
    var j := Located(b[0], a);
    AtMostTotal(key(a[0]), key(b[0]));
    AtMostTotal(key(a[0]), key(a[0]));
    AtMostTotal(key(b[0]), key(b[0]));
    assert AtMost(key(b[0]), key(b[i])) && AtMost(key(a[0]), key(a[j]));
    assert b[0] in a;
  }

  // ---------------------------------------------------------------------------------------------------------
  // Specification
  // ---------------------------------------------------------------------------------------------------------

  /** Sources of all entries with this ID, in input order. */
  function SourcesOf<D>(rs: seq<Registration<D>>, id: Key): seq<Key> {
    if rs == [] then []
    else (if rs[0].id == id then [rs[0].source] else []) + SourcesOf(rs[1..], id)
  }

  /** They are the sources at exactly the positions with this ID, in order. */
  lemma {:induction false} SourcesByPosition<D>(rs: seq<Registration<D>>, id: Key) returns (positions: seq<nat>)
    ensures forall j | 0 <= j < |positions| :: positions[j] < |rs|
    ensures forall i, j | 0 <= i < j < |positions| :: positions[i] < positions[j]
    ensures forall i | 0 <= i < |rs| :: i in positions <==> rs[i].id == id
    ensures |SourcesOf(rs, id)| == |positions|
    ensures forall j | 0 <= j < |positions| :: SourcesOf(rs, id)[j] == rs[positions[j]].source
  {
    positions := [];
    if rs != [] {
      var last := |rs| - 1;
      assert rs == rs[..last] + [rs[last]];
      positions := SourcesByPosition(rs[..last], id);
      SourcesSplit(rs[..last], [rs[last]], id);
      if rs[last].id == id {
        positions := positions + [last];
      }
    }
  }

  /** Linear search of the input. */
  function Find<D>(rs: seq<Registration<D>>, id: Key): Option<Registration<D>> {
    if rs == [] then None else if rs[0].id == id then Some(rs[0]) else Find(rs[1..], id)
  }

  ghost predicate Duplicated<D>(rs: seq<Registration<D>>, id: Key) {
    |SourcesOf(rs, id)| >= 2
  }

  lemma {:induction false} SourcesSplit<D>(a: seq<Registration<D>>, b: seq<Registration<D>>, id: Key)
    ensures SourcesOf(a + b, id) == SourcesOf(a, id) + SourcesOf(b, id)
  {
    if a == [] {
      assert a + b == b;
    } else {
      assert (a + b)[1..] == a[1..] + b;
      SourcesSplit(a[1..], b, id);
    }
  }

  /** Rearranging the input rearranges the sources. */
  lemma {:induction false} SourcesRearrange<D>(a: seq<Registration<D>>, b: seq<Registration<D>>, id: Key)
    requires multiset(a) == multiset(b)
    ensures multiset(SourcesOf(a, id)) == multiset(SourcesOf(b, id))
  {
    SameSize(a, b);
    if a != [] {
      assert a[0] in multiset(a);
      var i := Located(a[0], b);
      WithoutFirst(a);
      WithoutOne(b, i);
      SourcesRearrange(a[1..], Without(b, i), id);
      SourcesAround(b, i, id);
    }
  }

  lemma SourcesAround<D>(rs: seq<Registration<D>>, i: nat, id: Key)
    requires i < |rs|
    ensures multiset(SourcesOf(rs, id)) ==
            multiset(if rs[i].id == id then [rs[i].source] else []) + multiset(SourcesOf(Without(rs, i), id))
  {
    assert rs == rs[..i] + rs[i..] && rs[i..][1..] == rs[i + 1..];
    SourcesSplit(rs[..i], rs[i + 1..], id);
    SourcesSplit(rs[..i], rs[i..], id);
  }

  /** Rearranging the input duplicates neither more nor fewer IDs. */
  lemma DuplicatesRearrange<D>(a: seq<Registration<D>>, b: seq<Registration<D>>, id: Key)
    requires multiset(a) == multiset(b)
    ensures |SourcesOf(a, id)| == |SourcesOf(b, id)|
  {
    SourcesRearrange(a, b, id);
    SameSize(SourcesOf(a, id), SourcesOf(b, id));
  }

  /** How many entries carry the ID, seen through positions. */
  lemma {:induction false} TwoPositionsDuplicate<D>(rs: seq<Registration<D>>, i: nat, j: nat)
    requires i < j < |rs| && rs[i].id == rs[j].id
    ensures Duplicated(rs, rs[i].id)
  {
    var id := rs[i].id;
    assert rs == rs[..i] + rs[i..];
    assert rs[i..] == [rs[i]] + rs[i + 1..];
    assert rs[i + 1..] == rs[i + 1..j] + rs[j..];
    SourcesSplit(rs[..i], rs[i..], id);
    SourcesSplit(rs[i + 1..j], rs[j..], id);
  }

  lemma {:induction false} DistinctIdsNotDuplicated<D>(rs: seq<Registration<D>>, id: Key)
    requires forall i, j | 0 <= i < j < |rs| :: rs[i].id != rs[j].id
    ensures |SourcesOf(rs, id)| <= 1
    ensures (forall i | 0 <= i < |rs| :: rs[i].id != id) ==> SourcesOf(rs, id) == []
  {
    if rs != [] {
      DistinctIdsNotDuplicated(rs[1..], id);
    }
  }

  lemma {:induction false} FindSound<D>(rs: seq<Registration<D>>, id: Key)
    ensures Find(rs, id).Some? <==> exists i :: 0 <= i < |rs| && rs[i].id == id
    ensures Find(rs, id).Some? ==> Find(rs, id).value in rs && Find(rs, id).value.id == id
  {
    if rs != [] {
      FindSound(rs[1..], id);
      if exists i :: 0 <= i < |rs| && rs[i].id == id {
        var i :| 0 <= i < |rs| && rs[i].id == id;
        if i > 0 {
          assert rs[1..][i - 1].id == id;
        }
      }
    }
  }

  /** Without duplicates, linear search does not depend on the order of the input. */
  lemma FindRearranges<D>(a: seq<Registration<D>>, b: seq<Registration<D>>, id: Key)
    requires multiset(a) == multiset(b)
    requires forall other :: !Duplicated(a, other)
    ensures Find(a, id) == Find(b, id)
  {
    FindSound(a, id);
    FindSound(b, id);
    if Find(a, id).Some? {
      assert Find(a, id).value in multiset(b);
      var i :| 0 <= i < |b| && b[i] == Find(a, id).value;
    }
    if Find(b, id).Some? {
      assert Find(b, id).value in multiset(a);
      var j :| 0 <= j < |a| && a[j] == Find(b, id).value;
      var i :| 0 <= i < |a| && a[i] == Find(a, id).value;
      if i < j {
        TwoPositionsDuplicate(a, i, j);
      } else if j < i {
        TwoPositionsDuplicate(a, j, i);
      }
    }
  }

  // ---------------------------------------------------------------------------------------------------------
  // The registry
  // ---------------------------------------------------------------------------------------------------------

  datatype ValueCodecRegistry<+D> = ValueCodecRegistry(registrations: seq<Registration<D>>, indices: map<Key, nat>) {

    /** Lookup through the index. */
    function Get(id: Key): Option<Registration<D>> {
      if id in indices && indices[id] < |registrations| then Some(registrations[indices[id]]) else None
    }
  }

  /** What building must report for an input. */
  ghost predicate BuildsTo<D(!new)>(rs: seq<Registration<D>>, r: Result<ValueCodecRegistry<D>, RegistryError>) {
    match r
    case Ok(registry) =>
      && (forall id :: !Duplicated(rs, id))
      && SortedBy((x: Registration<D>) => x.id, registry.registrations)
      && multiset(registry.registrations) == multiset(rs)
      && (forall id: Key :: registry.Get(id) == Find(rs, id))
    case Err(DuplicateId(id, sources)) =>
      && Duplicated(rs, id)
      && (forall other | Duplicated(rs, other) :: AtMost(id, other))
      && SortedBy(k => k, sources) && multiset(sources) == multiset(SourcesOf(rs, id))
  }

  /** Sorts by ID, looks for equal neighbours and, if there are none, indexes what is left. */
  method Build<D(!new)>(rs: seq<Registration<D>>) returns (r: Result<ValueCodecRegistry<D>, RegistryError>)
    ensures BuildsTo(rs, r)
  {
    hide SortedBy, SourcesOf, AtMost, Find, Insert, Sort;
    var sorted := Sort((x: Registration<D>) => x.id, rs);
    SortSorts((x: Registration<D>) => x.id, rs);
    var index := 0;
    while index + 1 < |sorted|
      invariant 0 <= index && (sorted == [] ==> index == 0) && (sorted != [] ==> index < |sorted|)
      invariant forall i, j | 0 <= i < j <= index && j < |sorted| :: sorted[i].id != sorted[j].id
    {
      if sorted[index].id == sorted[index + 1].id {
        var id := sorted[index].id;
        var sources := TakeSources(sorted, index);
        FirstNeighbours(rs, sorted, index);
        SortSorts(k => k, sources);
        return Err(DuplicateId(id, Sort(k => k, sources)));
      }
      StillDistinct(sorted, index);
      index := index + 1;
    }
    var indices := map[];
    var k := 0;
    while k < |sorted|
      invariant 0 <= k <= |sorted|
      invariant forall id: Key :: id in indices ==> 0 <= indices[id] < k && sorted[indices[id]].id == id
      invariant forall i | 0 <= i < k :: sorted[i].id in indices
    {
      indices := indices[sorted[k].id := k];
      k := k + 1;
    }
    IndexFinds(rs, sorted, indices);
    return Ok(ValueCodecRegistry(sorted, indices));
  }

  /** The sources of the run of equal IDs that starts at `index`. */
  method TakeSources<D(!new)>(sorted: seq<Registration<D>>, index: nat) returns (sources: seq<Key>)
    requires index < |sorted| && SortedBy((x: Registration<D>) => x.id, sorted)
    ensures sources == SourcesOf(sorted[index..], sorted[index].id)
  {
    var id := sorted[index].id;
    sources := [];
    var k := index;
    assert sorted[index..index] == [];
    while k < |sorted| && sorted[k].id == id
      invariant index <= k <= |sorted|
      invariant sources == SourcesOf(sorted[index..k], id)
    {
      assert sorted[index..k + 1] == sorted[index..k] + [sorted[k]];
      SourcesSplit(sorted[index..k], [sorted[k]], id);
      sources := sources + [sorted[k].source];
      k := k + 1;
    }
    assert sorted[index..] == sorted[index..k] + sorted[k..];
    SourcesSplit(sorted[index..k], sorted[k..], id);
    PastTheRun(sorted, index, k);
  }

  /** In a sorted array an ID never comes back once it has been left behind. */
  lemma PastTheRun<D>(sorted: seq<Registration<D>>, index: nat, k: nat)
    requires index <= k <= |sorted| && index < |sorted| && SortedBy((x: Registration<D>) => x.id, sorted)
    requires k < |sorted| ==> sorted[k].id != sorted[index].id
    ensures SourcesOf(sorted[k..], sorted[index].id) == []
  {
    var id := sorted[index].id;
    if k < |sorted| {
      forall j | k <= j < |sorted| ensures sorted[j].id != id {
        if k < j {
          AtMostTotal(id, sorted[k].id);
          assert AtMost(id, sorted[k].id) && AtMost(sorted[k].id, sorted[j].id);
        }
      }
    }
    AbsentIdHasNoSources(sorted[k..], id);
  }

  lemma {:induction false} AbsentIdHasNoSources<D>(rs: seq<Registration<D>>, id: Key)
    requires forall i | 0 <= i < |rs| :: rs[i].id != id
    ensures SourcesOf(rs, id) == []
  {
    if rs != [] {
      AbsentIdHasNoSources(rs[1..], id);
    }
  }

  lemma StillDistinct<D>(sorted: seq<Registration<D>>, index: nat)
    requires SortedBy((x: Registration<D>) => x.id, sorted) && index + 1 < |sorted|
    requires forall i, j | 0 <= i < j <= index :: sorted[i].id != sorted[j].id
    requires sorted[index].id != sorted[index + 1].id
    ensures forall i, j | 0 <= i < j <= index + 1 :: sorted[i].id != sorted[j].id
  {
    forall i | 0 <= i < index ensures sorted[i].id != sorted[index + 1].id {
      AtMostTotal(sorted[i].id, sorted[index].id);
      AtMostTotal(sorted[index].id, sorted[index + 1].id);
      assert AtMost(sorted[i].id, sorted[index].id) && AtMost(sorted[index].id, sorted[index + 1].id);
    }
  }

  /** The first equal neighbours of the sorted array are the least duplicated ID, and all its entries follow. */
  lemma FirstNeighbours<D>(rs: seq<Registration<D>>, sorted: seq<Registration<D>>, index: nat)
    requires SortedBy((x: Registration<D>) => x.id, sorted) && multiset(sorted) == multiset(rs)
    requires index + 1 < |sorted| && sorted[index].id == sorted[index + 1].id
    requires forall i, j | 0 <= i < j <= index :: sorted[i].id != sorted[j].id
    ensures var id := sorted[index].id;
            && Duplicated(rs, id)
            && multiset(SourcesOf(sorted[index..], id)) == multiset(SourcesOf(rs, id))
            && forall other | Duplicated(rs, other) :: AtMost(id, other)
  {
    hide SortedBy, SourcesOf, AtMost;
    var id := sorted[index].id;
    TwoPositionsDuplicate(sorted, index, index + 1);
    SourcesRearrange(sorted, rs, id);
    DuplicatesRearrange(sorted, rs, id);
    AllSourcesFollow(sorted, index);
    forall other | Duplicated(rs, other) ensures AtMost(id, other) {
      DuplicatesRearrange(sorted, rs, other);
      DuplicateComesLater(sorted, index, other);
    }
  }

  /** An ID that is new at `index` has all its entries from there on. */
  lemma AllSourcesFollow<D>(sorted: seq<Registration<D>>, index: nat)
    requires index < |sorted|
    requires forall i, j | 0 <= i < j <= index :: sorted[i].id != sorted[j].id
    ensures SourcesOf(sorted[index..], sorted[index].id) == SourcesOf(sorted, sorted[index].id)
  {
    hide SourcesOf;
    var id := sorted[index].id;
    assert sorted == sorted[..index] + sorted[index..];
    SourcesSplit(sorted[..index], sorted[index..], id);
    AbsentIdHasNoSources(sorted[..index], id);
  }

  /** Behind distinct IDs every duplicated one is at least the next. */
  lemma DuplicateComesLater<D>(sorted: seq<Registration<D>>, index: nat, other: Key)
    requires SortedBy((x: Registration<D>) => x.id, sorted) && index < |sorted| && Duplicated(sorted, other)
    requires forall i, j | 0 <= i < j <= index :: sorted[i].id != sorted[j].id
    ensures AtMost(sorted[index].id, other)
  {
    hide SourcesOf, AtMost;
    var head, tail := sorted[..index], sorted[index..];
    assert sorted == head + tail;
    SourcesSplit(head, tail, other);
    DistinctIdsNotDuplicated(head, other);
    if forall j | 0 <= j < |tail| :: tail[j].id != other {
      AbsentIdHasNoSources(tail, other);
    } else {
      var j :| 0 <= j < |tail| && tail[j].id == other;
      AtMostTotal(other, other);
    }
  }

  /** With distinct IDs the index answers like linear search of the input. */
  lemma IndexFinds<D>(rs: seq<Registration<D>>, sorted: seq<Registration<D>>, indices: map<Key, nat>)
    requires multiset(sorted) == multiset(rs)
    requires forall i, j | 0 <= i < j < |sorted| :: sorted[i].id != sorted[j].id
    requires forall id: Key :: id in indices ==> 0 <= indices[id] < |sorted| && sorted[indices[id]].id == id
    requires forall i | 0 <= i < |sorted| :: sorted[i].id in indices
    ensures forall id :: !Duplicated(rs, id)
    ensures forall id: Key :: ValueCodecRegistry(sorted, indices).Get(id) == Find(rs, id)
  {
    forall id ensures !Duplicated(rs, id) && !Duplicated(sorted, id) {
      DistinctIdsNotDuplicated(sorted, id);
      DuplicatesRearrange(sorted, rs, id);
    }
    forall id: Key ensures ValueCodecRegistry(sorted, indices).Get(id) == Find(rs, id) {
      FindRearranges(sorted, rs, id);
      FindSound(sorted, id);
      if id in indices {
        var found := Find(sorted, id).value;
        var i :| 0 <= i < |sorted| && sorted[i] == found;
        assert i == indices[id];
      }
    }
  }

  /** Unduplicated entries are told apart by their IDs. */
  lemma UnduplicatedDistinguishes<D(!new)>(rs: seq<Registration<D>>, sorted: seq<Registration<D>>)
    requires multiset(sorted) == multiset(rs) && forall id :: !Duplicated(rs, id)
    ensures Distinguishes((x: Registration<D>) => x.id, sorted)
  {
    forall x, y | x in sorted && y in sorted && x.id == y.id ensures x == y {
      assert x in multiset(rs) && y in multiset(rs);
      var i := Located(x, rs);
      var j := Located(y, rs);
      if i < j {
        TwoPositionsDuplicate(rs, i, j);
      } else if j < i {
        TwoPositionsDuplicate(rs, j, i);
      }
    }
  }

  /** What is reported does not depend on the order of the input: neither the error, nor the entries and their order,
      nor any answer. */
  lemma OrderDoesNotMatter<D(!new)>(
    a: seq<Registration<D>>, b: seq<Registration<D>>, ra: Result<ValueCodecRegistry<D>, RegistryError>,
    rb: Result<ValueCodecRegistry<D>, RegistryError>)
    requires multiset(a) == multiset(b) && BuildsTo(a, ra) && BuildsTo(b, rb)
    ensures ra.Err? <==> rb.Err?
    ensures ra.Err? ==> ra == rb
    ensures ra.Ok? ==> ra.value.registrations == rb.value.registrations
    ensures ra.Ok? ==> forall id: Key :: ra.value.Get(id) == rb.value.Get(id)
  {
    hide SourcesOf, AtMost, SortedBy, Find;
    forall id ensures Duplicated(a, id) <==> Duplicated(b, id) {
      DuplicatesRearrange(a, b, id);
    }
    if ra.Err? {
      AtMostTotal(ra.error.id, rb.error.id);
      SourcesRearrange(a, b, ra.error.id);
      SortedUnique(k => k, ra.error.sources, rb.error.sources);
    } else {
      UnduplicatedDistinguishes(a, ra.value.registrations);
      SortedUnique((x: Registration<D>) => x.id, ra.value.registrations, rb.value.registrations);
      forall id: Key ensures ra.value.Get(id) == rb.value.Get(id) {
        FindRearranges(a, b, id);
      }
    }
  }
}
