/** The per-thread chunk-handle cache of the builder: for every depth of the
    hierarchy a single-entry fast slot, a "used" generation and an "aged"
    generation, aged out two generations at a time (CLOCK / second chance). */
module Clipping {
  import opened Wrappers

  /** A hierarchy node: its depth and its position at that depth. */
  datatype ChunkKey<P> = ChunkKey(depth: nat, position: P)

  /** The fast slot of one depth: the position last touched and its chunk
      (None stands for the null chunk pointer of a reset slot). */
  datatype CachedChunk<P, C> = CachedChunk(xyz: P, chunk: Option<C>)

  /** One hand-over of a depth's aged generation to the chunk cache. */
  datatype Release<P(==), C> = Release(depth: nat, chunks: map<P, C>)

  /** The three tiers of a Clipper, one entry per depth. */
  datatype Tiers<P(==), C> = Tiers(
    fast: seq<CachedChunk<P, C>>,
    used: seq<map<P, C>>,
    aged: seq<map<P, C>>)
  {
    predicate WellShaped() {
      |fast| == |used| == |aged|
    }
  }

  /** The reset fast slot: a default-constructed position and no chunk. */
  function Reset<P, C>(blank: P): CachedChunk<P, C> {
    CachedChunk(blank, None)
  }

  /** Every fast slot is either reset or mirrors an entry of its used map. */
  ghost predicate FastCoherent<P, C>(t: Tiers<P, C>, blank: P)
    requires t.WellShaped()
  {
    forall d :: 0 <= d < |t.fast| ==>
      t.fast[d] == Reset(blank) ||
      (t.fast[d].chunk.Some? && t.fast[d].xyz in t.used[d] &&
       t.used[d][t.fast[d].xyz] == t.fast[d].chunk.value)
  }

  /** The chunks a depth still holds: aged entries, overridden by used ones. */
  function Resident<P(==), C>(t: Tiers<P, C>, d: nat): map<P, C>
    requires t.WellShaped() && d < |t.used|
  {
    t.aged[d] + t.used[d]
  }

  /** Reference lookup that ignores the fast slot: used first, then aged. */
  function Stored<P(==), C>(t: Tiers<P, C>, key: ChunkKey<P>): Option<C>
    requires t.WellShaped() && key.depth < |t.used|
  {
    var d, p := key.depth, key.position;
    if p in t.used[d] then Some(t.used[d][p])
    else if p in t.aged[d] then Some(t.aged[d][p])
    else None
  }

  /** Clipper::get: the chunk found and the tiers afterwards. */
  function Lookup<P(==), C>(t: Tiers<P, C>, key: ChunkKey<P>): (Option<C>, Tiers<P, C>)
    requires t.WellShaped() && key.depth < |t.fast|
  {
    var d, p := key.depth, key.position;
    if t.fast[d].xyz == p then (t.fast[d].chunk, t)
    else if p in t.used[d] then
      var c := t.used[d][p];
      (Some(c), t.(fast := t.fast[d := CachedChunk(p, Some(c))]))
    else if p in t.aged[d] then
      var c := t.aged[d][p];
      (Some(c), Tiers(t.fast[d := CachedChunk(p, Some(c))],
                      t.used[d := t.used[d][p := c]],
                      t.aged[d := t.aged[d] - {p}]))
    else (None, t)
  }

  /** Clipper::set: installs the chunk in the fast slot and the used map. */
  function Install<P(==), C>(t: Tiers<P, C>, key: ChunkKey<P>, c: C): Tiers<P, C>
    requires t.WellShaped() && key.depth < |t.fast|
    requires key.position !in t.used[key.depth]
  {
    var d, p := key.depth, key.position;
    t.(fast := t.fast[d := CachedChunk(p, Some(c))], used := t.used[d := t.used[d][p := c]])
  }

  /** The first depth at or after `from` where both generations are empty
      (or the number of depths): the depth at which clip stops. */
  function Horizon<P(==), C>(used: seq<map<P, C>>, aged: seq<map<P, C>>, from: nat): (k: nat)
    requires |used| == |aged| && from <= |used|
    ensures from <= k <= |used|
    ensures forall d :: from <= d < k ==> |used[d]| != 0 || |aged[d]| != 0
    ensures k < |used| ==> |used[k]| == 0 && |aged[k]| == 0
    decreases |used| - from
  {
    if from == |used| || (|used[from]| == 0 && |aged[from]| == 0) then from
    else Horizon(used, aged, from + 1)
  }

  /** The first depth at or after `from` whose used map is empty: where the
      teardown merge stops. */
  function UsedHorizon<P(==), C>(used: seq<map<P, C>>, from: nat): (m: nat)
    requires from <= |used|
    ensures from <= m <= |used|
    ensures forall d :: from <= d < m ==> |used[d]| != 0
    ensures m < |used| ==> |used[m]| == 0
    decreases |used| - from
  {
    if from == |used| || |used[from]| == 0 then from
    else UsedHorizon(used, from + 1)
  }

  /** The aged generations of depths 0 .. k-1, handed over in depth order. */
  function Releases<P(==), C>(aged: seq<map<P, C>>, k: nat): seq<Release<P, C>>
    requires k <= |aged|
  {
    if k == 0 then [] else Releases(aged, k - 1) + [Release(k - 1, aged[k - 1])]
  }

  /** Clipper::clip: resets every fast slot; for each depth before the
      horizon hands the aged map over and moves used into aged. */
  function Age<P(==), C>(t: Tiers<P, C>, blank: P): (Tiers<P, C>, seq<Release<P, C>>)
    requires t.WellShaped()
  {
    var k := Horizon(t.used, t.aged, 0);
    (Tiers(seq(|t.fast|, _ => Reset(blank)),
           seq(|t.used|, d requires 0 <= d < |t.used| => if d < k then map[] else t.used[d]),
           seq(|t.aged|, d requires 0 <= d < |t.aged| => if d < k then t.used[d] else t.aged[d])),
     Releases(t.aged, k))
  }

  /** The merge loop of Clipper::~Clipper: up to the first empty used map,
      used entries join aged; map insertion keeps an aged value already there. */
  function Merge<P(==), C>(t: Tiers<P, C>): Tiers<P, C>
    requires t.WellShaped()
  {
    t.(aged := MergedUpTo(t, UsedHorizon(t.used, 0)))
  }

  /** The aged generations once depths 0 .. j-1 have been merged. */
  function MergedUpTo<P(==), C>(t: Tiers<P, C>, j: nat): seq<map<P, C>>
    requires t.WellShaped()
  {
    seq(|t.aged|, d requires 0 <= d < |t.aged| => if d < j then t.used[d] + t.aged[d] else t.aged[d])
  }

  /** Some release of depth d handed over position p with chunk c. */
  ghost predicate Released<P, C>(rs: seq<Release<P, C>>, d: nat, p: P, c: C) {
    exists i :: 0 <= i < |rs| && rs[i].depth == d && p in rs[i].chunks && rs[i].chunks[p] == c
  }

  // ----- properties of the specification -----

  lemma {:induction false} ReleasesAt<P, C>(aged: seq<map<P, C>>, k: nat, e: nat)
    requires k <= |aged| && e < k
    ensures |Releases(aged, k)| == k
    ensures Releases(aged, k)[e] == Release(e, aged[e])
  {
    if e < k - 1 {
      ReleasesAt(aged, k - 1, e);
    } else {
      ReleasesLength(aged, k - 1);
    }
  }

  lemma {:induction false} ReleasesLength<P, C>(aged: seq<map<P, C>>, k: nat)
    requires k <= |aged|
    ensures |Releases(aged, k)| == k
  {
    if k > 0 {
      ReleasesLength(aged, k - 1);
    }
  }

  /** Every release of a clip pass is of a depth below the horizon and
      carries exactly that depth's aged generation. */
  lemma {:induction false} ReleasesAreAged<P, C>(aged: seq<map<P, C>>, k: nat, i: nat)
    requires k <= |aged| && i < |Releases(aged, k)|
    ensures i < k && Releases(aged, k)[i] == Release(i, aged[i])
  {
    ReleasesLength(aged, k);
    ReleasesAt(aged, k, i);
  }

  /** After set(k, c), get(k) answers c from the fast slot and changes nothing. */
  lemma GetAfterSet<P, C>(t: Tiers<P, C>, key: ChunkKey<P>, c: C)
    requires t.WellShaped() && key.depth < |t.fast| && key.position !in t.used[key.depth]
    ensures Lookup(Install(t, key, c), key) == (Some(c), Install(t, key, c))
  {
  }

  /** A hit found only in aged is promoted: it moves to used, leaves aged,
      becomes the fast slot's entry and is returned. */
  lemma AgedHitPromotes<P, C>(t: Tiers<P, C>, key: ChunkKey<P>)
    requires t.WellShaped() && key.depth < |t.fast|
    requires t.fast[key.depth].xyz != key.position
    requires key.position !in t.used[key.depth] && key.position in t.aged[key.depth]
    ensures var c := t.aged[key.depth][key.position];
            var (r, t') := Lookup(t, key);
            r == Some(c) &&
            t'.used == t.used[key.depth := t.used[key.depth][key.position := c]] &&
            t'.aged == t.aged[key.depth := t.aged[key.depth] - {key.position}] &&
            t'.fast == t.fast[key.depth := CachedChunk(key.position, Some(c))]
  {
  }

  /** A position in neither generation nor the fast slot is a miss that
      leaves every tier as it was. */
  lemma MissChangesNothing<P, C>(t: Tiers<P, C>, key: ChunkKey<P>)
    requires t.WellShaped() && key.depth < |t.fast|
    requires t.fast[key.depth].xyz != key.position
    requires key.position !in t.used[key.depth] && key.position !in t.aged[key.depth]
    ensures Lookup(t, key) == (None, t)
  {
  }

  /** With a coherent fast slot, get answers exactly what the generations
      hold, except for the reset slot's own position, which reads as a miss. */
  lemma LookupMatchesStored<P, C>(t: Tiers<P, C>, blank: P, key: ChunkKey<P>)
    requires t.WellShaped() && key.depth < |t.fast| && FastCoherent(t, blank)
    requires !(t.fast[key.depth] == Reset(blank) && key.position == blank)
    ensures Lookup(t, key).0 == Stored(t, key)
  {
  }

  /** The reset fast slot shadows its own position: get of the default
      position at a depth whose slot was reset answers null even when that
      position is held in the aged generation. */
  lemma ResetSlotShadowsBlank<P, C>(t: Tiers<P, C>, blank: P, d: nat)
    requires t.WellShaped() && d < |t.fast| && t.fast[d] == Reset(blank)
    ensures Lookup(t, ChunkKey(d, blank)) == (None, t)
  {
  }

  /** get neither loses nor invents chunks, keeps the fast slots coherent,
      and a second identical get returns the same chunk and changes nothing. */
  lemma LookupKeepsResidents<P, C>(t: Tiers<P, C>, blank: P, key: ChunkKey<P>)
    requires t.WellShaped() && key.depth < |t.fast| && FastCoherent(t, blank)
    ensures var (r, t') := Lookup(t, key);
            t'.WellShaped() && FastCoherent(t', blank) &&
            (forall d :: 0 <= d < |t.used| ==> Resident(t', d) == Resident(t, d)) &&
            Lookup(t', key) == (r, t')
  {
    var d, p := key.depth, key.position;
    var (r, t') := Lookup(t, key);
    if t.fast[d].xyz != p && p !in t.used[d] && p in t.aged[d] {
      var c := t.aged[d][p];
      assert Resident(t', d) == Resident(t, d) by {
        assert (t.aged[d] - {p}) + t.used[d][p := c] == t.aged[d] + t.used[d];
      }
    }
  }

  /** set adds exactly one entry to what the depth holds and keeps the fast
      slots coherent. */
  lemma InstallAddsOne<P, C>(t: Tiers<P, C>, blank: P, key: ChunkKey<P>, c: C)
    requires t.WellShaped() && key.depth < |t.fast| && key.position !in t.used[key.depth]
    requires FastCoherent(t, blank)
    ensures var t' := Install(t, key, c);
            t'.WellShaped() && FastCoherent(t', blank) &&
            Resident(t', key.depth) == Resident(t, key.depth)[key.position := c] &&
            forall d :: 0 <= d < |t.used| && d != key.depth ==> Resident(t', d) == Resident(t, d)
  {
  }

  /** The design's two generations: a position sits in at most one of used
      and aged at its depth. */
  ghost predicate GenerationsDisjoint<P, C>(t: Tiers<P, C>)
    requires t.WellShaped()
  {
    forall d :: 0 <= d < |t.used| ==> t.used[d].Keys !! t.aged[d].Keys
  }

  /** get keeps the generations disjoint: a promotion moves the entry. */
  lemma LookupKeepsDisjoint<P, C>(t: Tiers<P, C>, key: ChunkKey<P>)
    requires t.WellShaped() && key.depth < |t.fast| && GenerationsDisjoint(t)
    ensures Lookup(t, key).1.WellShaped() && GenerationsDisjoint(Lookup(t, key).1)
  {
  }

  /** set keeps the generations disjoint exactly when the position is not
      aging at its depth; the assert of set checks only used. */
  lemma InstallKeepsDisjoint<P, C>(t: Tiers<P, C>, key: ChunkKey<P>, c: C)
    requires t.WellShaped() && key.depth < |t.fast| && key.position !in t.used[key.depth]
    requires GenerationsDisjoint(t)
    ensures Install(t, key, c).WellShaped()
    ensures GenerationsDisjoint(Install(t, key, c)) <==> key.position !in t.aged[key.depth]
  {
    var t' := Install(t, key, c);
    if key.position in t.aged[key.depth] {
      assert key.position in t'.used[key.depth].Keys * t'.aged[key.depth].Keys;
    }
  }

  /** clip keeps the generations disjoint: used moves into an emptied aged. */
  lemma AgeKeepsDisjoint<P, C>(t: Tiers<P, C>, blank: P)
    requires t.WellShaped() && GenerationsDisjoint(t)
    ensures Age(t, blank).0.WellShaped() && GenerationsDisjoint(Age(t, blank).0)
  {
    AgeEffect(t, blank);
  }

  /** Where the code breaks disjointness: after a clip reset the fast slot,
      get of the default position misses even though it is aging, and the
      set that follows passes the used-only assert and puts it in both
      generations. */
  lemma ShadowThenSetOverlaps<P, C>(t: Tiers<P, C>, blank: P, d: nat, c: C)
    requires t.WellShaped() && d < |t.fast| && t.fast[d] == Reset(blank)
    requires blank !in t.used[d] && blank in t.aged[d]
    ensures Lookup(t, ChunkKey(d, blank)) == (None, t)
    ensures var t' := Install(t, ChunkKey(d, blank), c);
            t'.WellShaped() && blank in t'.used[d] && blank in t'.aged[d] && !GenerationsDisjoint(t')
  {
    var t' := Install(t, ChunkKey(d, blank), c);
    assert blank in t'.used[d].Keys * t'.aged[d].Keys;
  }

  /** The teardown merge copies used entries into aged without removing
      them, so a non-empty depth 0 ends up in both generations. */
  lemma MergeOverlaps<P, C>(t: Tiers<P, C>, p: P)
    requires t.WellShaped() && |t.used| > 0 && p in t.used[0]
    ensures Merge(t).WellShaped() && p in Merge(t).used[0] && p in Merge(t).aged[0]
    ensures !GenerationsDisjoint(Merge(t))
  {
    assert p in Merge(t).used[0].Keys * Merge(t).aged[0].Keys;
  }

  /** clip hands over exactly the aged generation of every depth before the
      horizon, in depth order; those depths keep only their used entries, as
      aged, and nothing is left in used; deeper depths are untouched; every
      fast slot is reset. */
  lemma {:induction false} AgeEffect<P, C>(t: Tiers<P, C>, blank: P)
    requires t.WellShaped()
    ensures var k := Horizon(t.used, t.aged, 0);
            var (t', rs) := Age(t, blank);
            t'.WellShaped() && FastCoherent(t', blank) &&
            |rs| == k &&
            (forall i :: 0 <= i < k ==> rs[i] == Release(i, t.aged[i])) &&
            (forall d :: 0 <= d < k ==> t'.used[d] == map[] && t'.aged[d] == t.used[d]) &&
            (forall d :: k <= d < |t.used| ==> t'.used[d] == t.used[d] && t'.aged[d] == t.aged[d]) &&
            (forall d :: 0 <= d < |t.fast| ==> t'.fast[d] == Reset(blank))
  {
    var k := Horizon(t.used, t.aged, 0);
    ReleasesLength(t.aged, k);
    forall i | 0 <= i < k
      ensures Releases(t.aged, k)[i] == Release(i, t.aged[i])
    {
      ReleasesAt(t.aged, k, i);
    }
  }

  /** Depths whose generations are non-empty all the way down lie before
      the horizon. */
  lemma HorizonBeyond<P, C>(used: seq<map<P, C>>, aged: seq<map<P, C>>, d: nat)
    requires |used| == |aged| && d < |used|
    requires forall e :: 0 <= e <= d ==> |used[e]| != 0 || |aged[e]| != 0
    ensures d < Horizon(used, aged, 0)
  {
  }

  /** First clip after set: an entry set at depth d (not already aging
      there), when clip reaches depth d, is not handed over; it moves to
      aged, and get still finds it unless it sits at the reset slot's own
      position. When every shallower used map was non-empty, every
      shallower aged map is non-empty afterwards, so the next clip reaches
      depth d too. */
  lemma {:induction false} FirstClipSpares<P, C>(t: Tiers<P, C>, blank: P, key: ChunkKey<P>, c: C)
    requires t.WellShaped() && key.depth < |t.fast|
    requires key.position !in t.used[key.depth] && key.position !in t.aged[key.depth]
    requires forall e :: 0 <= e < key.depth ==> |t.used[e]| != 0 || |t.aged[e]| != 0
    ensures var t1 := Install(t, key, c);
            var (t2, first) := Age(t1, blank);
            t2.WellShaped() &&
            !(exists c' :: Released(first, key.depth, key.position, c')) &&
            key.position !in t2.used[key.depth] &&
            key.position in t2.aged[key.depth] && t2.aged[key.depth][key.position] == c &&
            ((forall e :: 0 <= e < key.depth ==> |t.used[e]| != 0) ==>
               (forall e :: 0 <= e < key.depth ==> |t2.aged[e]| != 0)) &&
            (key.position != blank ==> Lookup(t2, key).0 == Some(c))
  {
    var d, p := key.depth, key.position;
    var t1 := Install(t, key, c);
    var (t2, first) := Age(t1, blank);
    AgeEffect(t1, blank);
    HorizonBeyond(t1.used, t1.aged, d);
  }

  /** Second clip without a touch: the aged entry is handed over, and get
      misses afterwards. */
  lemma {:induction false} SecondClipReleases<P, C>(t: Tiers<P, C>, blank: P, key: ChunkKey<P>, c: C)
    requires t.WellShaped() && key.depth < |t.fast|
    requires forall e :: 0 <= e < key.depth ==> |t.used[e]| != 0 || |t.aged[e]| != 0
    requires key.position !in t.used[key.depth]
    requires key.position in t.aged[key.depth] && t.aged[key.depth][key.position] == c
    ensures var (t', rs) := Age(t, blank);
            t'.WellShaped() &&
            Released(rs, key.depth, key.position, c) &&
            Lookup(t', key).0 == None
  {
    var d := key.depth;
    AgeEffect(t, blank);
    HorizonBeyond(t.used, t.aged, d);
    var rs := Age(t, blank).1;
    assert rs[d] == Release(d, t.aged[d]);
  }

  /** Second chance: an aged entry that get promotes, at a depth clip
      reaches, is not handed over by the next clip; it is aged again with
      the same chunk. */
  lemma {:induction false} PromotedEntrySpared<P, C>(t: Tiers<P, C>, blank: P, key: ChunkKey<P>)
    requires t.WellShaped() && key.depth < |t.fast|
    requires t.fast[key.depth].xyz != key.position
    requires key.position !in t.used[key.depth] && key.position in t.aged[key.depth]
    requires forall e :: 0 <= e < key.depth ==> |t.used[e]| != 0 || |t.aged[e]| != 0
    ensures var c := t.aged[key.depth][key.position];
            var (r, t1) := Lookup(t, key);
            var (t2, rs) := Age(t1, blank);
            r == Some(c) && t2.WellShaped() &&
            !(exists c' :: Released(rs, key.depth, key.position, c')) &&
            key.position in t2.aged[key.depth] && t2.aged[key.depth][key.position] == c
  {
    var d := key.depth;
    var t1 := Lookup(t, key).1;
    AgeEffect(t1, blank);
    HorizonBeyond(t1.used, t1.aged, d);
  }

  /** Two-cycle aging: such an entry survives the first clip and is handed
      over by the second if nobody touched it in between. */
  lemma TwoCycleAging<P, C>(t: Tiers<P, C>, blank: P, key: ChunkKey<P>, c: C)
    requires t.WellShaped() && key.depth < |t.fast|
    requires key.position !in t.used[key.depth] && key.position !in t.aged[key.depth]
    requires forall e :: 0 <= e < key.depth ==> |t.used[e]| != 0
    ensures var t1 := Install(t, key, c);
            var (t2, first) := Age(t1, blank);
            var (t3, second) := Age(t2, blank);
            !(exists c' :: Released(first, key.depth, key.position, c')) &&
            Released(second, key.depth, key.position, c) &&
            (key.position != blank ==> Lookup(t2, key).0 == Some(c)) &&
            Lookup(t3, key).0 == None
  {
    FirstClipSpares(t, blank, key, c);
    var t2 := Age(Install(t, key, c), blank).0;
    SecondClipReleases(t2, blank, key, c);
  }

  /** Teardown releases every chunk of every depth down to the first depth
      whose used generation is empty; where both generations hold a
      position, the aged chunk is the one handed over. */
  lemma {:induction false} TeardownReleases<P, C>(t: Tiers<P, C>, blank: P, d: nat, p: P)
    requires t.WellShaped() && d < |t.used|
    requires p in Resident(t, d)
    requires forall e :: 0 <= e <= d ==> |t.used[e]| != 0
    ensures Merge(t).WellShaped()
    ensures Released(Age(Merge(t), blank).1, d, p, (t.used[d] + t.aged[d])[p])
  {
    var merged := Merge(t);
    assert d < UsedHorizon(t.used, 0);
    AgeEffect(merged, blank);
    HorizonBeyond(merged.used, merged.aged, d);
    var rs := Age(merged, blank).1;
    assert rs[d] == Release(d, merged.aged[d]);
  }

  /** The early stop of teardown: with depth 0 idle, nothing is handed over,
      whatever the deeper depths hold. */
  lemma TeardownStopsAtIdleRoot<P, C>(t: Tiers<P, C>, blank: P)
    requires t.WellShaped() && |t.used| > 0
    requires |t.used[0]| == 0 && |t.aged[0]| == 0
    ensures Age(Merge(t), blank).1 == []
    ensures forall d :: 0 <= d < |t.used| ==> Age(Merge(t), blank).0.used[d] == t.used[d]
  {
  }

  /** The teardown merge touches only the aged generations, so the fast
      slots stay coherent. */
  lemma MergeKeepsCoherent<P, C>(t: Tiers<P, C>, blank: P)
    requires t.WellShaped() && FastCoherent(t, blank)
    ensures Merge(t).WellShaped() && FastCoherent(Merge(t), blank)
  {
  }

  /** Merging one more depth extends the merged prefix by that depth. */
  lemma MergedStep<P, C>(t: Tiers<P, C>, j: nat)
    requires t.WellShaped() && j < |t.aged|
    ensures MergedUpTo(t, j)[j := t.used[j] + t.aged[j]] == MergedUpTo(t, j + 1)
  {
  }

  /** The tiers after the teardown merge are determined by its description. */
  lemma MergeDetermined<P, C>(t: Tiers<P, C>, t': Tiers<P, C>)
    requires t.WellShaped()
    requires t'.fast == t.fast && t'.used == t.used && |t'.aged| == |t.aged|
    requires forall d :: 0 <= d < UsedHorizon(t.used, 0) ==> t'.aged[d] == t.used[d] + t.aged[d]
    requires forall d :: UsedHorizon(t.used, 0) <= d < |t.aged| ==> t'.aged[d] == t.aged[d]
    ensures t' == Merge(t)
  {
    assert t'.aged == Merge(t).aged;
  }

  /** The tiers after clip are determined by the description of AgeEffect. */
  lemma AgeDetermined<P, C>(t: Tiers<P, C>, blank: P, t': Tiers<P, C>)
    requires t.WellShaped() && t'.WellShaped() && |t'.fast| == |t.fast|
    requires forall d :: 0 <= d < |t.fast| ==> t'.fast[d] == Reset(blank)
    requires forall d :: 0 <= d < Horizon(t.used, t.aged, 0) ==> t'.used[d] == map[] && t'.aged[d] == t.used[d]
    requires forall d :: Horizon(t.used, t.aged, 0) <= d < |t.used| ==> t'.used[d] == t.used[d] && t'.aged[d] == t.aged[d]
    ensures t' == Age(t, blank).0 && FastCoherent(t', blank)
  {
    AgeEffect(t, blank);
    var a := Age(t, blank).0;
    assert t'.fast == a.fast;
    assert t'.used == a.used;
    assert t'.aged == a.aged;
  }

  // ----- the imperative model -----

  /** The chunk cache as the Clipper sees it: a log of released generations
      and a count of completed clip passes. */
  class ChunkCache<P(==), C> {
    var released: seq<Release<P, C>>
    var passes: nat

    constructor ()
      ensures released == [] && passes == 0
    {
      released := [];
      passes := 0;
    }

    /** ChunkCache::clip: drop this thread's references to the given chunks. */
    method Clip(depth: nat, chunks: map<P, C>)
      modifies this
      ensures released == old(released) + [Release(depth, chunks)]
      ensures passes == old(passes)
    {
      released := released + [Release(depth, chunks)];
    }

    /** ChunkCache::clipped: a clip pass has completed. */
    method Clipped()
      modifies this
      ensures passes == old(passes) + 1
      ensures released == old(released)
    {
      passes := passes + 1;
    }
  }

  class Clipper<P(==), C> {
    const cache: ChunkCache<P, C>
    const blank: P
    const fast: array<CachedChunk<P, C>>
    const used: array<map<P, C>>
    const aged: array<map<P, C>>

    ghost function State(): Tiers<P, C>
      reads fast, used, aged
    {
      Tiers(fast[..], used[..], aged[..])
    }

    ghost predicate Valid()
      reads fast, used, aged
    {
      fast.Length == used.Length == aged.Length && used != aged &&
      FastCoherent(State(), blank)
    }

    constructor (cache: ChunkCache<P, C>, blank: P, maxDepth: nat)
      ensures Valid() && fresh(fast) && fresh(used) && fresh(aged)
      ensures this.cache == cache && this.blank == blank && fast.Length == maxDepth
      ensures forall d :: 0 <= d < maxDepth ==>
                fast[d] == Reset(blank) && used[d] == map[] && aged[d] == map[]
    {
      this.cache := cache;
      this.blank := blank;
      fast := new CachedChunk<P, C>[maxDepth](_ => Reset(blank));
      used := new map<P, C>[maxDepth](_ => map[]);
      aged := new map<P, C>[maxDepth](_ => map[]);
    }

    /** Clipper::get */
    method Get(key: ChunkKey<P>) returns (r: Option<C>)
      requires Valid() && key.depth < fast.Length
      modifies fast, used, aged
      ensures Valid()
      ensures (r, State()) == Lookup(old(State()), key)
    {
      ghost var t := State();
      LookupKeepsResidents(t, blank, key);
      var d, p := key.depth, key.position;
      if fast[d].xyz == p {
        return fast[d].chunk;
      }
      var c: C;
      if p in used[d] {
        c := used[d][p];
      } else {
        if p !in aged[d] {
          return None;
        }
        c := aged[d][p];
        used[d] := used[d][p := c];
        aged[d] := aged[d] - {p};
      }
      fast[d] := CachedChunk(p, Some(c));
      r := Some(c);
    }

    /** Clipper::set; a position already in the used map is a contract violation. */
    method Set(key: ChunkKey<P>, chunk: C)
      requires Valid() && key.depth < fast.Length
      requires key.position !in used[key.depth]
      modifies fast, used
      ensures Valid()
      ensures State() == Install(old(State()), key, chunk)
    {
      InstallAddsOne(State(), blank, key, chunk);
      var d, p := key.depth, key.position;
      fast[d] := CachedChunk(p, Some(chunk));
      used[d] := used[d][p := chunk];
    }

    /** Clipper::clip */
    method Clip()
      requires Valid()
      modifies fast, used, aged, cache
      ensures Valid()
      ensures State() == Age(old(State()), blank).0
      ensures cache.released == old(cache.released) + Age(old(State()), blank).1
      ensures cache.passes == old(cache.passes) + 1
    {
      ghost var t := State();
      forall d | 0 <= d < fast.Length {
        fast[d] := Reset(blank);
      }
      assert used[..] == t.used && aged[..] == t.aged;
      AgeDepths();
      cache.Clipped();
      ghost var t' := State();
      assert forall d :: 0 <= d < |t.fast| ==> t'.fast[d] == Reset(blank);
      AgeDetermined(t, blank, t');
    }

    /** The depth loop of Clipper::clip: for each depth before the horizon,
        hand the aged generation to the cache, clear it and swap used into it. */
    method AgeDepths()
      requires used.Length == aged.Length && used != aged
      modifies used, aged, cache
      ensures var k := Horizon(old(used[..]), old(aged[..]), 0);
              (forall d :: 0 <= d < k ==> used[d] == map[] && aged[d] == old(used[d])) &&
              (forall d :: k <= d < used.Length ==> used[d] == old(used[d]) && aged[d] == old(aged[d])) &&
              cache.released == old(cache.released) + Releases(old(aged[..]), k)
      ensures cache.passes == old(cache.passes)
    {
      ghost var used0, aged0 := used[..], aged[..];
      ghost var k := Horizon(used0, aged0, 0);
      var depth := 0;
      while depth < used.Length && (|used[depth]| != 0 || |aged[depth]| != 0)
        invariant 0 <= depth <= k
        invariant forall d :: 0 <= d < depth ==> used[d] == map[] && aged[d] == used0[d]
        invariant forall d :: depth <= d < used.Length ==> used[d] == used0[d] && aged[d] == aged0[d]
        invariant cache.released == old(cache.released) + Releases(aged0, depth)
        invariant cache.passes == old(cache.passes)
      {
        AgeDepth(depth);
        depth := depth + 1;
      }
      assert depth < used.Length ==> used[depth] == used0[depth] && aged[depth] == aged0[depth];
      assert depth == k;
    }

    /** One depth of Clipper::clip: release the aged generation, clear it and
        swap the used generation into its place. */
    method AgeDepth(depth: nat)
      requires depth < used.Length == aged.Length && used != aged
      modifies used, aged, cache
      ensures used[..] == old(used[..])[depth := map[]]
      ensures aged[..] == old(aged[..])[depth := old(used[depth])]
      ensures cache.released == old(cache.released) + [Release(depth, old(aged[depth]))]
      ensures cache.passes == old(cache.passes)
    {
      cache.Clip(depth, aged[depth]);
      aged[depth] := map[];
      used[depth], aged[depth] := aged[depth], used[depth];
    }

    /** Clipper::~Clipper: merge used into aged, then clip once. */
    method Teardown()
      requires Valid()
      modifies fast, used, aged, cache
      ensures State() == Age(Merge(old(State())), blank).0
      ensures cache.released == old(cache.released) + Age(Merge(old(State())), blank).1
      ensures cache.passes == old(cache.passes) + 1
    {
      ghost var t := State();
      MergeUsedIntoAged();
      MergeKeepsCoherent(t, blank);
      Clip();
    }

    /** The merge loop of Clipper::~Clipper: up to the first empty used map,
        insert every used entry into aged. */
    method MergeUsedIntoAged()
      requires fast.Length == used.Length == aged.Length && used != aged
      modifies aged
      ensures State() == Merge(old(State()))
    {
      ghost var t := State();
      ghost var m := UsedHorizon(t.used, 0);
      var depth := 0;
      while depth < used.Length && |used[depth]| != 0
        invariant 0 <= depth <= m
        invariant fast[..] == t.fast && used[..] == t.used
        invariant aged[..] == MergedUpTo(t, depth)
      {
        MergeDepth(depth);
        MergedStep(t, depth);
        depth := depth + 1;
      }
      assert depth == m;
    }

    /** One depth of the teardown merge: used entries join the aged map. */
    method MergeDepth(depth: nat)
      requires depth < used.Length == aged.Length && used != aged
      modifies aged
      ensures aged[..] == old(aged[..])[depth := used[depth] + old(aged[depth])]
    {
      aged[depth] := used[depth] + aged[depth];
    }
  }
}
