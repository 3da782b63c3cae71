/** Grouping of the playlist by birth year (`renderPlaylist`,
    main.js:329-346) and the era shown above each group (main.js:356).

    Tracks are bucketed by birth year in the order the store delivers them,
    a track without a (non-zero) birth year going to the unknown group
    "不明"; the groups are then ordered by ascending year with the unknown
    group last.
 */
module Playlist {
  import opened Options
  import opened Tracks
  import Era

  /** A group key: `Some(y)` for birth year `y`, `None` for the unknown
      group "不明". */
  type Key = Option<int>

  /** `t.birthYear || "不明"` (main.js:332): a missing birth year, and the
      falsy year 0, go to the unknown group. */
  function KeyOf(t: Track): (k: Key)
    ensures k.Some? ==> k.value != 0 && t.birthYear == k
    ensures k.None? <==> t.birthYear.None? || t.birthYear.value == 0
  {
    if t.birthYear.Some? && t.birthYear.value != 0 then t.birthYear else None
  }

  /** One column of the playlist: a key and its tracks. */
  datatype Group = Group(key: Key, tracks: seq<Track>)

  /** The keys of the groups, in column order. (The ensures only exposes the
      comprehension to the quantified proofs below.) */
  function Keys(gs: seq<Group>): (ks: seq<Key>)
    ensures |ks| == |gs|
    ensures forall i :: 0 <= i < |gs| ==> ks[i] == gs[i].key
  {
    seq(|gs|, i requires 0 <= i < |gs| => gs[i].key)
  }

  /** The tracks of `ts` whose key is `k`, in the order of `ts`. */
  function Filter(ts: seq<Track>, k: Key): seq<Track> {
    if ts == [] then []
    else (if KeyOf(ts[0]) == k then [ts[0]] else []) + Filter(ts[1..], k)
  }

  /** The tracks of all groups, group after group. */
  function Flatten(gs: seq<Group>): seq<Track> {
    if gs == [] then [] else gs[0].tracks + Flatten(gs[1..])
  }

  predicate Distinct(ks: seq<Key>) {
    forall i, j :: 0 <= i < j < |ks| ==> ks[i] != ks[j]
  }

  /** The column order: years ascending, the unknown key after every year. */
  predicate KeyBefore(a: Key, b: Key) {
    a.Some? && (b.None? || a.value < b.value)
  }

  predicate StrictlySorted(ks: seq<Key>) {
    forall i, j :: 0 <= i < j < |ks| ==> KeyBefore(ks[i], ks[j])
  }

  /** The comparator of main.js:340-346: a non-numeric key compares greater
      (the first argument is examined first), numbers by difference. */
  function Compare(a: Key, b: Key): int {
    if a.None? then 1 else if b.None? then -1 else a.value - b.value
  }

  /** On two different keys the comparator is the column order. (On two
      unknown keys it would answer 1 both ways, but a grouping never holds
      two.) */
  lemma CompareIsKeyOrder(a: Key, b: Key)
    requires a != b
    ensures Compare(a, b) < 0 <==> KeyBefore(a, b)
    ensures Compare(a, b) > 0 <==> KeyBefore(b, a)
  {
  }

  // ---------------------------------------------------------------------
  // The specification of a grouping.

  /** `r` groups `ts`: columns in key order, each holding exactly the tracks
      of `ts` with its key in input order, and a column for every key that
      occurs. */
  predicate IsGrouping(r: seq<Group>, ts: seq<Track>) {
    && StrictlySorted(Keys(r))
    && (forall i :: 0 <= i < |r| ==> r[i].tracks == Filter(ts, r[i].key) && r[i].tracks != [])
    && (forall t :: t in ts ==> KeyOf(t) in Keys(r))
  }

  // ---------------------------------------------------------------------
  // Bucketing (main.js:330-337).

  /** `groups[year].push(t)`, creating the group when it is missing. */
  function AddTrack(gs: seq<Group>, t: Track): (r: seq<Group>)
    requires Distinct(Keys(gs))
    ensures |r| == if KeyOf(t) in Keys(gs) then |gs| else |gs| + 1
    ensures forall i :: 0 <= i < |gs| ==>
              r[i] == if gs[i].key == KeyOf(t) then Group(gs[i].key, gs[i].tracks + [t]) else gs[i]
    ensures KeyOf(t) !in Keys(gs) ==> r[|gs|] == Group(KeyOf(t), [t])
  {
    if gs == [] then [Group(KeyOf(t), [t])]
    else if gs[0].key == KeyOf(t) then [Group(gs[0].key, gs[0].tracks + [t])] + gs[1..]
    else
      assert Keys(gs[1..]) == Keys(gs)[1..];
      [gs[0]] + AddTrack(gs[1..], t)
  }

  /** The `forEach` of main.js:331-337: groups in order of first appearance. */
  function Collect(ts: seq<Track>): (gs: seq<Group>)
    ensures Bucketed(gs, ts)
    decreases |ts|
  {
    if ts == [] then []
    else
      var init, t := ts[..|ts| - 1], ts[|ts| - 1];
      assert ts == init + [t];
      var gs := Collect(init);
      AddTrackBuckets(gs, init, t);
      AddTrack(gs, t)
  }

  /** `gs` is a bucketing of `ts`: distinct keys, each group holding exactly
      the tracks of `ts` with its key in input order, a group for every key. */
  predicate Bucketed(gs: seq<Group>, ts: seq<Track>) {
    && Distinct(Keys(gs))
    && (forall i :: 0 <= i < |gs| ==> gs[i].tracks == Filter(ts, gs[i].key) && gs[i].tracks != [])
    && (forall t :: t in ts ==> KeyOf(t) in Keys(gs))
  }

  /** Adding a track to a bucketing of the tracks before it gives a
      bucketing of them all. */
  lemma AddTrackBuckets(gs: seq<Group>, ts: seq<Track>, t: Track)
    requires Bucketed(gs, ts)
    ensures Bucketed(AddTrack(gs, t), ts + [t])
  {
    var r := AddTrack(gs, t);
    FilterSnoc(ts, t);
    assert Keys(r) == if KeyOf(t) in Keys(gs) then Keys(gs) else Keys(gs) + [KeyOf(t)];
    forall i | 0 <= i < |r| ensures r[i].tracks == Filter(ts + [t], r[i].key) && r[i].tracks != [] {
      if i == |gs| {
        assert KeyOf(t) !in Keys(gs);
        assert Filter(ts, KeyOf(t)) == [] by {
          FilterEmpty(ts, KeyOf(t));
        }
      }
    }
    forall u | u in ts + [t] ensures KeyOf(u) in Keys(r) {
      if u in ts {
        var m :| 0 <= m < |gs| && gs[m].key == KeyOf(u);
        assert Keys(r)[m] == KeyOf(u);
      }
    }
  }

  /** The filter of a key no track has is empty. */
  lemma {:induction false} FilterEmpty(ts: seq<Track>, k: Key)
    requires forall t :: t in ts ==> KeyOf(t) != k
    ensures Filter(ts, k) == []
  {
    if ts != [] {
      assert forall t :: t in ts[1..] ==> t in ts;
      FilterEmpty(ts[1..], k);
    }
  }

  /** Filtering one more track. */
  lemma {:induction false} FilterSnoc(ts: seq<Track>, t: Track)
    ensures forall k :: Filter(ts + [t], k) == Filter(ts, k) + (if KeyOf(t) == k then [t] else [])
  {
    forall k ensures Filter(ts + [t], k) == Filter(ts, k) + (if KeyOf(t) == k then [t] else []) {
      FilterSnocKey(ts, t, k);
    }
  }

  lemma {:induction false} FilterSnocKey(ts: seq<Track>, t: Track, k: Key)
    ensures Filter(ts + [t], k) == Filter(ts, k) + (if KeyOf(t) == k then [t] else [])
  {
    if ts != [] {
      assert (ts + [t])[1..] == ts[1..] + [t];
      FilterSnocKey(ts[1..], t, k);
    }
  }

  // ---------------------------------------------------------------------
  // Ordering (main.js:340-346).

  /** Insertion of one group before the first group it compares below. */
  function Insert(g: Group, gs: seq<Group>): (r: seq<Group>)
    requires StrictlySorted(Keys(gs)) && g.key !in Keys(gs)
    ensures StrictlySorted(Keys(r))
    ensures multiset(r) == multiset(gs) + multiset{g}
  {
    if gs == [] then [g]
    else
      CompareIsKeyOrder(g.key, gs[0].key);
      if Compare(g.key, gs[0].key) < 0 then [g] + gs
      else
        assert Keys(gs[1..]) == Keys(gs)[1..];
        var rest := Insert(g, gs[1..]);
        assert gs == [gs[0]] + gs[1..];
        InsertKeys(gs[0], g, gs[1..], rest);
        [gs[0]] + rest
  }

  /** A group whose key precedes `g`'s key and every key of `gs` stays in
      front of what inserting `g` into `gs` gave. */
  lemma InsertKeys(h: Group, g: Group, gs: seq<Group>, rest: seq<Group>)
    requires KeyBefore(h.key, g.key)
    requires forall i :: 0 <= i < |gs| ==> KeyBefore(h.key, gs[i].key)
    requires StrictlySorted(Keys(rest))
    requires multiset(rest) == multiset(gs) + multiset{g}
    ensures StrictlySorted(Keys([h] + rest))
  {
    forall j | 0 <= j < |rest| ensures KeyBefore(h.key, rest[j].key) {
      assert rest[j] in multiset(rest);
      if rest[j] != g {
        assert rest[j] in multiset(gs);
        var m :| 0 <= m < |gs| && gs[m] == rest[j];
      }
    }
  }

  /** Sorting the groups of a bucketing (the source leaves the algorithm to
      the engine; on distinct keys every correct sort gives this result). */
  function SortGroups(gs: seq<Group>): (r: seq<Group>)
    requires Distinct(Keys(gs))
    ensures StrictlySorted(Keys(r))
    ensures multiset(r) == multiset(gs)
  {
    if gs == [] then []
    else
      assert Keys(gs[1..]) == Keys(gs)[1..];
      var rest := SortGroups(gs[1..]);
      NotInSorted(gs, rest);
      assert gs == [gs[0]] + gs[1..];
      Insert(gs[0], rest)
  }

  /** The first key of distinct keys is not among the keys of any
      rearrangement of the other groups. */
  lemma NotInSorted(gs: seq<Group>, rest: seq<Group>)
    requires |gs| > 0 && Distinct(Keys(gs))
    requires multiset(rest) == multiset(gs[1..])
    ensures gs[0].key !in Keys(rest)
  {
    forall j | 0 <= j < |rest| ensures rest[j].key != gs[0].key {
      assert rest[j] in multiset(gs[1..]);
      var m :| 0 <= m < |gs[1..]| && gs[1..][m] == rest[j];
      assert Keys(gs)[m + 1] != Keys(gs)[0];
    }
  }

  /** `renderPlaylist`'s grouping and key order (main.js:329-346). */
  function GroupTracks(ts: seq<Track>): (r: seq<Group>)
    ensures IsGrouping(r, ts)
  {
    var gs := Collect(ts);
    var r := SortGroups(gs);
    SortedIsGrouping(gs, r, ts);
    r
  }

  /** Reordering the groups of a bucketing into key order gives a grouping. */
  lemma SortedIsGrouping(gs: seq<Group>, r: seq<Group>, ts: seq<Track>)
    requires Bucketed(gs, ts)
    requires StrictlySorted(Keys(r)) && multiset(r) == multiset(gs)
    ensures IsGrouping(r, ts)
  {
    forall i | 0 <= i < |r| ensures r[i].tracks == Filter(ts, r[i].key) && r[i].tracks != [] {
      assert r[i] in multiset(gs);
      var m :| 0 <= m < |gs| && gs[m] == r[i];
    }
    forall t | t in ts ensures KeyOf(t) in Keys(r) {
      var m :| 0 <= m < |gs| && gs[m].key == KeyOf(t);
      assert gs[m] in multiset(r);
      var j :| 0 <= j < |r| && r[j] == gs[m];
      assert Keys(r)[j] == KeyOf(t);
    }
  }

  // ---------------------------------------------------------------------
  // The headers (main.js:356).

  /** The era shown above a group: `getEraName(parseInt(key))`. The unknown
      key "不明" parses to `NaN`, fails every comparison and shows the
      catch-all era. */
  function Header(k: Key): (name: string)
    ensures k.None? ==> name == Era.EraName(Era.Taisho)
    ensures k.Some? ==> name == Era.EraName(Era.EraOf(Era.EraDateOf(k.value)))
  {
    Era.GetEraName(k)
  }

  /** The header above a track added by this client names the era of the
      label stored with it, also for birth year 0, which lands in the unknown
      group and whose stored label is the bare year 17. */
  lemma HeaderMatchesStoredEra(boardId: Option<string>, selected: Option<int>, item: SearchItem)
    requires NewTrack(boardId, selected, item).Ok?
    ensures var t := NewTrack(boardId, selected, item).value;
            Era.ParseEraLabel(t.era17).Some? &&
            Header(KeyOf(t)) == Era.EraName(Era.EraOf(Era.ParseEraLabel(t.era17).value))
  {
  }

  // ---------------------------------------------------------------------
  // Properties of groupings.

  /** A track is in the filter for `k` exactly when it is in the input and has key `k`. */
  lemma {:induction false} FilterMembers(ts: seq<Track>, k: Key)
    ensures forall t :: t in Filter(ts, k) <==> t in ts && KeyOf(t) == k
  {
    if ts != [] {
      FilterMembers(ts[1..], k);
      assert ts == [ts[0]] + ts[1..];
    }
  }

  /** Filtering keeps every copy of a track with the key and none of the others. */
  lemma {:induction false} FilterCount(ts: seq<Track>, k: Key, x: Track)
    ensures multiset(Filter(ts, k))[x] == if KeyOf(x) == k then multiset(ts)[x] else 0
  {
    if ts != [] {
      FilterCount(ts[1..], k, x);
      assert ts == [ts[0]] + ts[1..];
    }
  }

  /** Filtering keeps the input order: two tracks with the key, the first
      earlier in the input, appear in that order in the filter. */
  lemma {:induction false} FilterKeepsOrder(ts: seq<Track>, k: Key, p: nat, q: nat)
    requires p < q < |ts| && KeyOf(ts[p]) == k && KeyOf(ts[q]) == k
    ensures exists i, j :: 0 <= i < j < |Filter(ts, k)| && Filter(ts, k)[i] == ts[p] && Filter(ts, k)[j] == ts[q]
  {
    var rest := ts[1..];
    var head := if KeyOf(ts[0]) == k then [ts[0]] else [];
    assert Filter(ts, k) == head + Filter(rest, k);
    if p == 0 {
      FilterMembers(rest, k);
      assert ts[q] == rest[q - 1];
      var j :| 0 <= j < |Filter(rest, k)| && Filter(rest, k)[j] == ts[q];
      assert Filter(ts, k)[0] == ts[p] && Filter(ts, k)[j + 1] == ts[q];
    } else {
      FilterKeepsOrder(rest, k, p - 1, q - 1);
      var i, j :| 0 <= i < j < |Filter(rest, k)| && Filter(rest, k)[i] == ts[p] && Filter(rest, k)[j] == ts[q];
      assert Filter(ts, k)[|head| + i] == ts[p] && Filter(ts, k)[|head| + j] == ts[q];
    }
  }

  lemma {:induction false} FilterAppend(a: seq<Track>, b: seq<Track>, k: Key)
    ensures Filter(a + b, k) == Filter(a, k) + Filter(b, k)
  {
    if a != [] {
      var head := if KeyOf(a[0]) == k then [a[0]] else [];
      assert (a + b)[0] == a[0] && (a + b)[1..] == a[1..] + b;
      FilterAppend(a[1..], b, k);
      calc {
        Filter(a + b, k);
        head + Filter(a[1..] + b, k);
        head + (Filter(a[1..], k) + Filter(b, k));
        (head + Filter(a[1..], k)) + Filter(b, k);
        Filter(a, k) + Filter(b, k);
      }
    } else {
      assert a + b == b;
    }
  }

  lemma {:induction false} FilterAll(ts: seq<Track>, k: Key)
    requires forall t :: t in ts ==> KeyOf(t) == k
    ensures Filter(ts, k) == ts
  {
    if ts != [] {
      assert forall t :: t in ts[1..] ==> t in ts;
      FilterAll(ts[1..], k);
    }
  }

  /** A track of the flattened groups comes from one of the groups. */
  lemma {:induction false} InFlatten(gs: seq<Group>, t: Track)
    requires t in Flatten(gs)
    ensures exists i :: 0 <= i < |gs| && t in gs[i].tracks
  {
    if t !in gs[0].tracks {
      InFlatten(gs[1..], t);
      var i :| 0 <= i < |gs[1..]| && t in gs[1..][i].tracks;
      assert t in gs[i + 1].tracks;
    }
  }

  /** Every track of every group carries the group's key. */
  predicate Homogeneous(gs: seq<Group>) {
    forall i, t :: 0 <= i < |gs| && t in gs[i].tracks ==> KeyOf(t) == gs[i].key
  }

  lemma GroupingHomogeneous(r: seq<Group>, ts: seq<Track>)
    requires IsGrouping(r, ts)
    ensures Homogeneous(r)
  {
    forall i, t | 0 <= i < |r| && t in r[i].tracks ensures KeyOf(t) == r[i].key {
      FilterMembers(ts, r[i].key);
    }
  }

  lemma SortedDistinct(ks: seq<Key>)
    requires StrictlySorted(ks)
    ensures Distinct(ks)
  {
  }

  /** In a grouping, each track of the input sits in the group of its own
      key and in no other; a track with a missing or zero birth year sits in
      the unknown group. */
  lemma TrackInOwnGroup(r: seq<Group>, ts: seq<Track>, t: Track)
    requires IsGrouping(r, ts) && t in ts
    ensures exists i :: 0 <= i < |r| && r[i].key == KeyOf(t) && t in r[i].tracks
    ensures forall i :: 0 <= i < |r| && t in r[i].tracks ==> r[i].key == KeyOf(t)
    ensures t.birthYear.None? || t.birthYear == Some(0) ==>
              exists i :: 0 <= i < |r| && r[i].key.None? && t in r[i].tracks
  {
    var i :| 0 <= i < |r| && r[i].key == KeyOf(t);
    FilterMembers(ts, KeyOf(t));
    assert t in r[i].tracks;
    GroupingHomogeneous(r, ts);
  }

  /** Within a group the tracks keep the order in which they arrived. */
  lemma GroupKeepsOrder(r: seq<Group>, ts: seq<Track>, p: nat, q: nat)
    requires IsGrouping(r, ts) && p < q < |ts| && KeyOf(ts[p]) == KeyOf(ts[q])
    ensures exists g, i, j :: 0 <= g < |r| && 0 <= i < j < |r[g].tracks| &&
              r[g].tracks[i] == ts[p] && r[g].tracks[j] == ts[q]
  {
    assert ts[p] in ts;
    var g :| 0 <= g < |r| && Keys(r)[g] == KeyOf(ts[p]);
    FilterKeepsOrder(ts, r[g].key, p, q);
  }

  /** The tracks of the groups, counted with repetition, are exactly the
      input tracks: each input track is placed once. */
  lemma {:induction false} FlattenCount(r: seq<Group>, ts: seq<Track>, x: Track)
    requires Distinct(Keys(r))
    requires forall i :: 0 <= i < |r| ==> r[i].tracks == Filter(ts, r[i].key)
    ensures multiset(Flatten(r))[x] == if KeyOf(x) in Keys(r) then multiset(ts)[x] else 0
  {
    if r != [] {
      assert Keys(r[1..]) == Keys(r)[1..];
      FlattenCount(r[1..], ts, x);
      FilterCount(ts, r[0].key, x);
      if KeyOf(x) == r[0].key {
        forall j | 0 <= j < |r[1..]| ensures Keys(r[1..])[j] != KeyOf(x) {
          assert Keys(r)[0] != Keys(r)[j + 1];
        }
      } else {
        assert KeyOf(x) in Keys(r) <==> KeyOf(x) in Keys(r[1..]);
      }
    }
  }

  /** Exactly-once placement: the groups hold the input's tracks with their
      multiplicities, so the group sizes add up to the input length. */
  lemma GroupingExactlyOnce(r: seq<Group>, ts: seq<Track>)
    requires IsGrouping(r, ts)
    ensures multiset(Flatten(r)) == multiset(ts)
    ensures |Flatten(r)| == |ts|
  {
    SortedDistinct(Keys(r));
    forall x ensures multiset(Flatten(r))[x] == multiset(ts)[x] {
      FlattenCount(r, ts, x);
      if x in ts {
        assert KeyOf(x) in Keys(r);
      }
    }
    assert multiset(Flatten(r)) == multiset(ts);
    assert |multiset(Flatten(r))| == |multiset(ts)|;
  }

  /** The unknown group, when there is one, is the last column, and the
      year columns before it ascend strictly. */
  lemma UnknownGroupLast(r: seq<Group>, ts: seq<Track>)
    requires IsGrouping(r, ts)
    ensures forall i :: 0 <= i < |r| && r[i].key.None? ==> i == |r| - 1
    ensures forall i, j :: 0 <= i < j < |r| && r[j].key.Some? ==>
              r[i].key.Some? && r[i].key.value < r[j].key.value
  {
    forall i | 0 <= i < |r| && r[i].key.None? ensures i == |r| - 1 {
      assert i + 1 < |r| ==> KeyBefore(Keys(r)[i], Keys(r)[i + 1]);
    }
    forall i, j | 0 <= i < j < |r| && r[j].key.Some?
      ensures r[i].key.Some? && r[i].key.value < r[j].key.value
    {
      assert KeyBefore(Keys(r)[i], Keys(r)[j]);
    }
  }

  /** A grouping has no groups exactly when there are no tracks. */
  lemma GroupingEmpty(r: seq<Group>, ts: seq<Track>)
    requires IsGrouping(r, ts)
    ensures r == [] <==> ts == []
  {
    if ts != [] {
      assert ts[0] in ts;
    }
    if r != [] {
      FilterMembers(ts, r[0].key);
      assert r[0].tracks[0] in Filter(ts, r[0].key);
    }
  }

  /** Two strictly sorted key lists with the same members are equal. */
  lemma {:induction false} SortedSameMembers(a: seq<Key>, b: seq<Key>)
    requires StrictlySorted(a) && StrictlySorted(b)
    requires forall k :: k in a <==> k in b
    ensures a == b
  {
    if a != [] {
      assert a[0] in b;
    }
    if b != [] {
      assert b[0] in a;
    }
    if a != [] && b != [] {
      var i :| 0 <= i < |a| && a[i] == b[0];
      var j :| 0 <= j < |b| && b[j] == a[0];
      var x, y := a[0], b[0];
      assert i > 0 ==> KeyBefore(x, y);
      assert j > 0 ==> KeyBefore(y, x);
      forall k ensures k in a[1..] <==> k in b[1..] {
        if k in a[1..] {
          var m :| 0 <= m < |a[1..]| && a[1..][m] == k;
          assert KeyBefore(a[0], a[m + 1]);
          assert a[m + 1] == k && k in a && k in b;
          var n :| 0 <= n < |b| && b[n] == k;
          assert n != 0;
          assert b[1..][n - 1] == k;
        }
        if k in b[1..] {
          var m :| 0 <= m < |b[1..]| && b[1..][m] == k;
          assert KeyBefore(b[0], b[m + 1]);
          assert b[m + 1] == k && k in b && k in a;
          var n :| 0 <= n < |a| && a[n] == k;
          assert n != 0;
          assert a[1..][n - 1] == k;
        }
      }
      SortedSameMembers(a[1..], b[1..]);
      assert a == [a[0]] + a[1..] && b == [b[0]] + b[1..];
    }
  }

  /** A grouping is determined by its input: there is exactly one. */
  lemma GroupingUnique(a: seq<Group>, b: seq<Group>, ts: seq<Track>)
    requires IsGrouping(a, ts) && IsGrouping(b, ts)
    ensures a == b
  {
    forall k ensures k in Keys(a) <==> k in Keys(b) {
      FilterMembers(ts, k);
      if k in Keys(a) {
        var i :| 0 <= i < |a| && a[i].key == k;
        assert a[i].tracks[0] in Filter(ts, k);
      }
      if k in Keys(b) {
        var i :| 0 <= i < |b| && b[i].key == k;
        assert b[i].tracks[0] in Filter(ts, k);
      }
    }
    SortedSameMembers(Keys(a), Keys(b));
    assert |a| == |b|;
    forall i | 0 <= i < |a| ensures a[i] == b[i] {
      assert Keys(a)[i] == Keys(b)[i];
    }
  }

  /** Filtering the flattened groups by one group's key gives that group. */
  lemma {:induction false} FilterFlatten(r: seq<Group>, i: nat)
    requires Distinct(Keys(r)) && Homogeneous(r) && i < |r|
    ensures Filter(Flatten(r), r[i].key) == r[i].tracks
  {
    var rest := r[1..];
    assert Keys(rest) == Keys(r)[1..];
    FilterAppend(r[0].tracks, Flatten(rest), r[i].key);
    if i == 0 {
      FilterAll(r[0].tracks, r[0].key);
      forall t | t in Flatten(rest) ensures KeyOf(t) != r[0].key {
        InFlatten(rest, t);
        var j :| 0 <= j < |rest| && t in rest[j].tracks;
        assert KeyOf(t) == Keys(r)[j + 1];
      }
      FilterEmpty(Flatten(rest), r[0].key);
    } else {
      forall t | t in r[0].tracks ensures KeyOf(t) != r[i].key {
        assert Keys(r)[0] != Keys(r)[i];
      }
      FilterEmpty(r[0].tracks, r[i].key);
      FilterFlatten(rest, i - 1);
    }
  }

  /** Grouping the tracks of a grouping, read column by column, gives the
      same grouping back. */
  lemma GroupTracksIdempotent(ts: seq<Track>)
    ensures GroupTracks(Flatten(GroupTracks(ts))) == GroupTracks(ts)
  {
    var r := GroupTracks(ts);
    var y := Flatten(r);
    SortedDistinct(Keys(r));
    GroupingHomogeneous(r, ts);
    forall i | 0 <= i < |r| ensures r[i].tracks == Filter(y, r[i].key) {
      FilterFlatten(r, i);
    }
    forall t | t in y ensures KeyOf(t) in Keys(r) {
      InFlatten(r, t);
      var i :| 0 <= i < |r| && t in r[i].tracks;
      assert Keys(r)[i] == KeyOf(t);
    }
    assert IsGrouping(r, y);
    GroupingUnique(r, GroupTracks(y), y);
  }

  /** For example, tracks born 1990, 1985 and unknown are shown in the
      columns 1985, 1990, unknown. */
  lemma ExampleColumnOrder(t1990: Track, t1985: Track, tUnknown: Track)
    requires t1990.birthYear == Some(1990) && t1985.birthYear == Some(1985) && tUnknown.birthYear.None?
    ensures Keys(GroupTracks([t1990, t1985, tUnknown])) == [Some(1985), Some(1990), None]
  {
    var ts := [t1990, t1985, tUnknown];
    var r := [Group(Some(1985), [t1985]), Group(Some(1990), [t1990]), Group(None, [tUnknown])];
    var ts1, ts2 := [t1985, tUnknown], [tUnknown];
    assert ts[1..] == ts1 && ts1[1..] == ts2 && ts2[1..] == [];
    assert KeyOf(t1990) == Some(1990) && KeyOf(t1985) == Some(1985) && KeyOf(tUnknown) == None;
    assert Filter(ts2, None) == [tUnknown];
    assert Filter(ts1, None) == [tUnknown];
    assert Filter(ts, None) == [tUnknown];
    assert Filter(ts2, Some(1985)) == [];
    assert Filter(ts1, Some(1985)) == [t1985];
    assert Filter(ts, Some(1985)) == [t1985];
    assert Filter(ts2, Some(1990)) == [];
    assert Filter(ts1, Some(1990)) == [];
    assert Filter(ts, Some(1990)) == [t1990];
    assert Keys(r) == [Some(1985), Some(1990), None];
    assert IsGrouping(r, ts);
    GroupingUnique(r, GroupTracks(ts), ts);
  }
}
