/** The tone mapper's cache of EGL images: a map from buffer names to integer keys, and a
    least-recently-used cache from those keys to images, kept in step by an eviction callback. */
module EglImageCache {
  import opened LastUsed
  import opened Wrappers

  const CAPACITY := 32

  /** A cached image: `id` counts the images built so far, `key` is what it is cached under, `name` the
      buffer it was built for. */
  datatype Image = Image(id: nat, key: int, name: string)

  const KEYS := 0x1_0000_0000

  /** Conversion of the 64-bit counter to the `int` keys of both containers. */
  function ToInt(n: nat): int {
    if n < 0x8000_0000 then n
    else if n < KEYS then n - KEYS
    else (n + 0x8000_0000) % KEYS - 0x8000_0000
  }

  /** `lru` holds the cached images, least recently used first; `deleted` lists the images destroyed. */
  datatype Cache = Cache(names: map<string, int>, lru: seq<Image>, next: nat, deleted: seq<Image>)

  const EMPTY := Cache(map[], [], 0, [])

  // ----- the cache as a function

  /** The position of a key in the cache, or its length. */
  function Find(lru: seq<Image>, key: int): (k: nat)
    ensures k <= |lru| && (k < |lru| ==> lru[k].key == key)
    ensures forall j | 0 <= j < k :: lru[j].key != key
  {
    Index(lru, (x: Image) => x.key == key)
  }

  /** `LruCache::get`: a hit becomes the most recently used entry. */
  function Get(lru: seq<Image>, key: int): (seq<Image>, Option<Image>) {
    var k := Find(lru, key);
    if k < |lru| then (Remove(lru, k) + [lru[k]], Some(lru[k])) else (lru, None)
  }

  /** The order of the name map: character by character. */
  predicate Before(a: string, b: string) {
    if a == [] || b == [] then a == [] && b != []
    else a[0] < b[0] || (a[0] == b[0] && Before(a[1..], b[1..]))
  }

  /** The first name, in the map's order, that has the key. */
  predicate IsFirst(names: map<string, int>, key: int, n: string) {
    && n in names && names[n] == key
    && forall m | m in names :: names[m] == key && m != n ==> Before(n, m)
  }

  /** The names left when the first one with the key is erased. */
  function Forget(names: map<string, int>, key: int): map<string, int> {
    map n | n in names && !IsFirst(names, key, n) :: names[n]
  }

  /** The eviction callback: destroys the image and forgets its name. */
  function Evict(s: Cache): Cache
    requires s.lru != []
  {
    var oldest := s.lru[0];
    s.(lru := s.lru[1..], deleted := s.deleted + [oldest], names := Forget(s.names, oldest.key))
  }

  function MakeRoom(s: Cache): Cache {
    if |s.lru| >= CAPACITY then Evict(s) else s
  }

  /** `LruCache::put`: makes room first, then refuses a key that is still present. */
  function Put(s: Cache, image: Image): Cache {
    var t := MakeRoom(s);
    if Find(t.lru, image.key) < |t.lru| then t else t.(lru := t.lru + [image])
  }

  function WrapStep(s: Cache, name: string): (Cache, Option<Image>) {
    if name == "" then (s, None)
    else if name in s.names then
      var (lru, image) := Get(s.lru, s.names[name]);
      (s.(lru := lru), image)
    else
      var image := Image(s.next, ToInt(s.next), name);
      var t := Put(s.(names := s.names[name := image.key]), image);
      (t.(next := s.next + 1), Some(image))
  }

  function DestroyStep(s: Cache): Cache {
    Cache(map[], [], s.next, s.deleted + s.lru)
  }

  // ----- the invariant

  function Live(lru: seq<Image>): set<Image> {
    set x | x in lru
  }

  ghost predicate NoDup(lru: seq<Image>) {
    forall i, j | 0 <= i < j < |lru| :: lru[i] != lru[j]
  }

  ghost predicate Distinct(live: set<Image>) {
    forall x, y | x in live && y in live && x != y :: x.id != y.id && x.key != y.key && x.name != y.name
  }

  ghost predicate Named(live: set<Image>, n: string) {
    exists x :: x in live && x.name == n
  }

  /** Both containers hold the same entries. */
  ghost predicate InStep(live: set<Image>, names: map<string, int>) {
    && (forall x | x in live :: x.name in names && names[x.name] == x.key)
    && (forall n | n in names :: n != "" && Named(live, n))
  }

  ghost predicate DistinctIds(images: seq<Image>) {
    forall i, j | 0 <= i < j < |images| :: images[i].id != images[j].id
  }

  /** Every image built is cached or has been deleted, once and not both. */
  ghost predicate Accounted(live: set<Image>, next: nat, deleted: seq<Image>) {
    && (forall x | x in live :: x.id < next)
    && (forall y | y in deleted :: y.id < next)
    && (forall x, y | x in live && y in deleted :: x.id != y.id)
    && DistinctIds(deleted)
    && |live| + |deleted| == next
  }

  ghost predicate KeysFromIds(live: set<Image>) {
    forall x | x in live :: x.key == ToInt(x.id)
  }

  ghost predicate Consistent(live: set<Image>, names: map<string, int>, next: nat, deleted: seq<Image>) {
    Distinct(live) && InStep(live, names) && Accounted(live, next, deleted) && KeysFromIds(live)
  }

  ghost predicate Inv(s: Cache) {
    && |s.lru| <= CAPACITY && NoDup(s.lru)
    && Consistent(Live(s.lru), s.names, s.next, s.deleted)
  }

  /** The name map is injective and its range is the set of keys in the cache. */
  lemma NamesMatchKeys(s: Cache)
    requires Inv(s)
    ensures forall m, n | m in s.names && n in s.names && m != n :: s.names[m] != s.names[n]
    ensures s.names.Values == set x | x in s.lru :: x.key
  {
    var live := Live(s.lru);
    forall m, n | m in s.names && n in s.names && m != n
      ensures s.names[m] != s.names[n]
    {
      assert Named(live, m) && Named(live, n);
    }
    forall v
      ensures v in s.names.Values <==> v in set x | x in s.lru :: x.key
    {
      if v in s.names.Values {
        var n :| n in s.names && s.names[n] == v;
        assert Named(live, n);
      }
      if x :| x in s.lru && x.key == v {
        assert x in live;
        assert s.names[x.name] == v;
      }
    }
  }

  /** The key for the next image is not in use. */
  ghost predicate KeyFree(s: Cache) {
    forall x | x in s.lru :: x.key != ToInt(s.next)
  }

  /** The counter can be converted 2^32 times before a key comes up again. */
  lemma KeyFreeBelowLimit(s: Cache)
    requires Inv(s) && s.next < KEYS
    ensures KeyFree(s)
  {
    forall x | x in s.lru
      ensures x.key != ToInt(s.next)
    {
      assert x in Live(s.lru);
    }
  }

  // ----- the order of names

  lemma {:induction false} BeforeTotal(a: string, b: string)
    ensures a == b || Before(a, b) || Before(b, a)
    ensures !(Before(a, b) && Before(b, a)) && !Before(a, a)
  {
    if a != [] && b != [] {
      BeforeTotal(a[1..], b[1..]);
      assert a == [a[0]] + a[1..] && b == [b[0]] + b[1..];
    }
    if a != [] {
      BeforeTotal(a[1..], a[1..]);
    }
  }

  lemma {:induction false} BeforeTransitive(a: string, b: string, c: string)
    requires Before(a, b) && Before(b, c)
    ensures Before(a, c)
  {
    if a != [] && b != [] && c != [] && a[0] == b[0] == c[0] {
      BeforeTransitive(a[1..], b[1..], c[1..]);
    }
  }

  predicate Least(names: set<string>, n: string) {
    n in names && forall m | m in names :: m == n || Before(n, m)
  }

  lemma {:induction false} LeastExists(names: set<string>)
    requires names != {}
    ensures exists n :: Least(names, n)
  {
    var a :| a in names;
    var rest := names - {a};
    if rest == {} {
      assert names == {a};
      assert Least(names, a);
    } else {
      LeastExists(rest);
      var b :| Least(rest, b);
      BeforeTotal(a, b);
      if Before(a, b) {
        forall m | m in names
          ensures m == a || Before(a, m)
        {
          if m != a && m != b {
            BeforeTransitive(a, b, m);
          }
        }
        assert Least(names, a);
      } else {
        assert Least(names, b);
      }
    }
  }

  /** At most one name has the key. */
  ghost predicate NamedOnce(names: map<string, int>, key: int) {
    forall m, n | m in names && n in names && names[m] == key && names[n] == key :: m == n
  }

  /** With one name for the key, that name is the one erased. */
  lemma ForgetOnce(names: map<string, int>, key: int)
    requires NamedOnce(names, key)
    ensures Forget(names, key) == map n | n in names && names[n] != key :: names[n]
  {
  }

  // ----- one call

  /** The live images are those cached, once each. */
  lemma {:induction false} LiveSize(lru: seq<Image>)
    requires NoDup(lru)
    ensures |Live(lru)| == |lru|
  {
    if lru != [] {
      LiveSize(lru[1..]);
      assert Live(lru) == Live(lru[1..]) + {lru[0]};
    }
  }

  lemma EvictInStep(live: set<Image>, names: map<string, int>, x: Image)
    requires Distinct(live) && InStep(live, names) && x in live
    ensures InStep(live - {x}, Forget(names, x.key))
  {
    var rest := live - {x};
    assert NamedOnce(names, x.key) by {
      forall m, n | m in names && n in names && names[m] == x.key && names[n] == x.key
        ensures m == n
      {
        assert Named(live, m) && Named(live, n);
      }
    }
    ForgetOnce(names, x.key);
    forall n | n in Forget(names, x.key)
      ensures n != "" && Named(rest, n)
    {
      assert Named(live, n);
      var y :| y in live && y.name == n;
      assert y in rest && y.name == n;
    }
  }

  lemma EvictAccounted(live: set<Image>, next: nat, deleted: seq<Image>, x: Image)
    requires Distinct(live) && Accounted(live, next, deleted) && x in live
    ensures Accounted(live - {x}, next, deleted + [x])
  {
    assert |live - {x}| == |live| - 1;
    forall i, j | 0 <= i < j < |deleted + [x]|
      ensures (deleted + [x])[i].id != (deleted + [x])[j].id
    {
      assert deleted[i] in deleted;
    }
  }

  lemma EvictConsistent(live: set<Image>, names: map<string, int>, next: nat, deleted: seq<Image>, x: Image)
    requires Consistent(live, names, next, deleted) && x in live
    ensures Consistent(live - {x}, Forget(names, x.key), next, deleted + [x])
  {
    EvictInStep(live, names, x);
    EvictAccounted(live, next, deleted, x);
  }

  lemma LiveAdded(lru: seq<Image>, x: Image)
    requires NoDup(lru) && x !in Live(lru)
    ensures NoDup(lru + [x]) && Live(lru + [x]) == Live(lru) + {x}
  {
  }

  lemma LiveTail(lru: seq<Image>)
    requires NoDup(lru) && lru != []
    ensures NoDup(lru[1..]) && Live(lru[1..]) == Live(lru) - {lru[0]}
  {
    assert lru == [lru[0]] + lru[1..];
  }

  lemma EvictKeeps(s: Cache)
    requires Inv(s) && s.lru != []
    ensures Inv(Evict(s))
  {
    LiveTail(s.lru);
    EvictConsistent(Live(s.lru), s.names, s.next, s.deleted, s.lru[0]);
  }

  lemma MoveToEnd(lru: seq<Image>, k: nat)
    requires k < |lru| && NoDup(lru)
    ensures var t := Remove(lru, k) + [lru[k]]; |t| == |lru| && NoDup(t) && Live(t) == Live(lru)
  {
    var t := Remove(lru, k) + [lru[k]];
    assert lru == lru[..k] + [lru[k]] + lru[k + 1..];
    forall x
      ensures x in t <==> x in lru
    {
    }
  }

  /** A known name is found under its key. */
  lemma HitFinds(s: Cache, name: string)
    requires Inv(s) && name in s.names
    ensures var k := Find(s.lru, s.names[name]); k < |s.lru| && s.lru[k].name == name
  {
    var live, k := Live(s.lru), Find(s.lru, s.names[name]);
    assert Named(live, name);
    var y :| y in live && y.name == name;
    var i :| 0 <= i < |s.lru| && s.lru[i] == y;
    assert y.key == s.names[name];
    assert s.lru[k] in live;
  }

  lemma HitKeeps(s: Cache, name: string)
    requires Inv(s) && name in s.names
    ensures var (t, image) := WrapStep(s, name);
            && Inv(t)
            && image.Some? && image.value in s.lru && image.value.name == name
            && t.lru != [] && t.lru[|t.lru| - 1] == image.value
            && Live(t.lru) == Live(s.lru)
  {
    HitFinds(s, name);
    MoveToEnd(s.lru, Find(s.lru, s.names[name]));
  }

  lemma AddInStep(live: set<Image>, names: map<string, int>, x: Image)
    requires InStep(live, names) && x.name !in names && x.name != ""
    ensures InStep(live + {x}, names[x.name := x.key])
  {
    forall n | n in names[x.name := x.key]
      ensures n != "" && Named(live + {x}, n)
    {
      if n != x.name {
        assert Named(live, n);
        var y :| y in live && y.name == n;
        assert y in live + {x};
      } else {
        assert x in live + {x};
      }
    }
  }

  lemma AddConsistent(live: set<Image>, names: map<string, int>, next: nat, deleted: seq<Image>, x: Image)
    requires Consistent(live, names, next, deleted)
    requires forall y | y in live :: y.key != x.key
    requires x.id == next && x.key == ToInt(next) && x.name != "" && x.name !in names
    ensures Consistent(live + {x}, names[x.name := x.key], next + 1, deleted) && x !in live
  {
    AddInStep(live, names, x);
  }

  /** Adding a new image under a new name and an unused key keeps the invariant. */
  lemma AddKeeps(u: Cache, image: Image)
    requires Inv(u) && KeyFree(u) && |u.lru| < CAPACITY
    requires image.id == u.next && image.key == ToInt(u.next) && image.name != "" && image.name !in u.names
    ensures Inv(Cache(u.names[image.name := image.key], u.lru + [image], u.next + 1, u.deleted))
  {
    var live, more := Live(u.lru), Live(u.lru + [image]);
    AddConsistent(live, u.names, u.next, u.deleted, image);
    LiveAdded(u.lru, image);
    assert more == live + {image};
    assert Consistent(more, u.names[image.name := image.key], u.next + 1, u.deleted);
  }

  /** Making room before or after the new name is entered leaves the same names. */
  lemma MakeRoomCommutes(s: Cache, name: string, key: int)
    requires name !in s.names && forall x | x in s.lru :: x.key != key
    ensures MakeRoom(s.(names := s.names[name := key])) ==
              MakeRoom(s).(names := MakeRoom(s).names[name := key])
  {
    if |s.lru| >= CAPACITY {
      var k := s.lru[0].key;
      assert k != key;
      forall n
        ensures IsFirst(s.names[name := key], k, n) <==> IsFirst(s.names, k, n)
      {
      }
      assert Forget(s.names[name := key], k) == Forget(s.names, k)[name := key];
    }
  }

  /** What a miss does when its key is free. */
  lemma WrapMiss(s: Cache, name: string)
    requires KeyFree(s) && name != "" && name !in s.names
    ensures var image, u := Image(s.next, ToInt(s.next), name), MakeRoom(s);
            WrapStep(s, name) ==
              (Cache(u.names[name := image.key], u.lru + [image], s.next + 1, u.deleted), Some(image))
  {
    var image, u := Image(s.next, ToInt(s.next), name), MakeRoom(s);
    MakeRoomCommutes(s, name, image.key);
    assert forall j | 0 <= j < |u.lru| :: u.lru[j] in s.lru;
  }

  lemma RoomKeeps(s: Cache)
    requires Inv(s)
    ensures Inv(MakeRoom(s)) && |MakeRoom(s).lru| < CAPACITY && MakeRoom(s).next == s.next
    ensures KeyFree(s) ==> KeyFree(MakeRoom(s))
  {
    if |s.lru| >= CAPACITY {
      EvictKeeps(s);
      assert forall x | x in s.lru[1..] :: x in s.lru;
    }
  }

  lemma MissKeeps(s: Cache, name: string)
    requires Inv(s) && KeyFree(s) && name != "" && name !in s.names
    ensures var (t, image) := WrapStep(s, name);
            && Inv(t) && image == Some(Image(s.next, ToInt(s.next), name))
            && t.lru == MakeRoom(s).lru + [image.value]
            && t.deleted == MakeRoom(s).deleted
  {
    WrapMiss(s, name);
    RoomKeeps(s);
    AddKeeps(MakeRoom(s), Image(s.next, ToInt(s.next), name));
  }

  /** A call keeps the invariant and returns an image built for the name asked for, alive and most
      recently used; only the empty name, of a buffer that cannot be named, gets none. A name already
      known gets the image it had. */
  lemma WrapKeeps(s: Cache, name: string)
    requires Inv(s) && KeyFree(s)
    ensures var (t, image) := WrapStep(s, name);
            && Inv(t)
            && (image.None? <==> name == "")
            && (image.Some? ==> image.value.name == name && t.lru != [] && t.lru[|t.lru| - 1] == image.value)
            && (name in s.names ==> image.value in s.lru)
  {
    if name in s.names {
      HitKeeps(s, name);
    } else if name != "" {
      MissKeeps(s, name);
    }
  }

  /** The image returned last survives the next call. */
  lemma YoungestSurvives(s: Cache, name: string)
    requires Inv(s) && KeyFree(s) && s.lru != []
    ensures s.lru[|s.lru| - 1] in WrapStep(s, name).0.lru
  {
    var x := s.lru[|s.lru| - 1];
    assert x in Live(s.lru);
    if name in s.names {
      HitKeeps(s, name);
      assert x in Live(WrapStep(s, name).0.lru);
    } else if name != "" {
      MissKeeps(s, name);
      assert x in MakeRoom(s).lru;
    }
  }

  lemma CachedNotDeleted(s: Cache, x: Image)
    requires Inv(s) && x in s.lru
    ensures x !in s.deleted
  {
    assert x in Live(s.lru);
  }

  /** `blit` wraps the destination and then the source: both images are alive when it draws. */
  lemma BlitImagesAlive(s: Cache, dst: string, src: string)
    requires Inv(s) && KeyFree(s) && KeyFree(WrapStep(s, dst).0)
    ensures var (t, d) := WrapStep(s, dst);
            var (u, e) := WrapStep(t, src);
            && (d.Some? ==> d.value in u.lru && d.value !in u.deleted)
            && (e.Some? ==> e.value in u.lru && e.value !in u.deleted)
  {
    WrapKeeps(s, dst);
    var t := WrapStep(s, dst).0;
    if dst != "" {
      YoungestSurvives(t, src);
    }
    WrapKeeps(t, src);
    var u := WrapStep(t, src).0;
    forall x | x in u.lru
      ensures x !in u.deleted
    {
      CachedNotDeleted(u, x);
    }
  }

  // ----- whole runs

  function After(run: seq<string>): Cache {
    if run == [] then EMPTY else WrapStep(After(run[..|run| - 1]), run[|run| - 1]).0
  }

  /** In every run that builds at most 2^32 images both containers stay in step, and every image built
      is cached or deleted exactly once. */
  lemma {:induction false} RunsKeepInv(run: seq<string>)
    requires After(run).next <= KEYS
    ensures Inv(After(run))
    ensures After(run).next < KEYS ==> KeyFree(After(run))
  {
    if run == [] {
      assert Live([]) == {};
    } else {
      var s, name := After(run[..|run| - 1]), run[|run| - 1];
      RunsKeepInv(run[..|run| - 1]);
      if name in s.names {
        HitKeeps(s, name);
      } else if name != "" {
        MissKeeps(s, name);
      }
    }
    if After(run).next < KEYS {
      KeyFreeBelowLimit(After(run));
    }
  }

  /** Destroying the wrapper deletes every image ever built, each exactly once. */
  lemma DestroyDeletesAll(run: seq<string>)
    requires After(run).next <= KEYS
    ensures var s := DestroyStep(After(run));
            && |s.deleted| == s.next
            && DistinctIds(s.deleted)
            && forall y | y in s.deleted :: y.id < s.next
  {
    RunsKeepInv(run);
    var t := After(run);
    LiveSize(t.lru);
    var all := t.deleted + t.lru;
    assert forall x | x in t.lru :: x in Live(t.lru);
    forall i, j | 0 <= i < j < |all|
      ensures all[i].id != all[j].id
    {
      if i < |t.deleted| <= j {
        assert all[i] in t.deleted && all[j] in Live(t.lru);
      } else if |t.deleted| <= i {
        assert all[i] in Live(t.lru) && all[j] in Live(t.lru);
        assert t.lru[i - |t.deleted|] != t.lru[j - |t.deleted|];
      }
    }
  }

  // ----- what is cached: the names used last

  /** The distinct names of a run, least recently used first. */
  function ByLastUse(run: seq<string>): seq<string> {
    if run == [] then []
    else
      var n := run[|run| - 1];
      var before := ByLastUse(run[..|run| - 1]);
      if n == "" then before else Without(before, n) + [n]
  }

  function NamesOf(lru: seq<Image>): seq<string> {
    seq(|lru|, i requires 0 <= i < |lru| => lru[i].name)
  }

  lemma {:induction false} ByLastUseDistinct(run: seq<string>)
    ensures NoRepeats(ByLastUse(run))
  {
    if run != [] {
      ByLastUseDistinct(run[..|run| - 1]);
      UseDistinct(ByLastUse(run[..|run| - 1]), run[|run| - 1]);
    }
  }

  lemma NamesKnown(s: Cache, name: string)
    requires Inv(s)
    ensures name in NamesOf(s.lru) <==> name in s.names
    ensures NoRepeats(NamesOf(s.lru))
  {
    var live, kept := Live(s.lru), NamesOf(s.lru);
    if name in kept {
      var i :| 0 <= i < |kept| && kept[i] == name;
      assert s.lru[i] in live;
    }
    if name in s.names {
      assert Named(live, name);
      var y :| y in live && y.name == name;
      var i :| 0 <= i < |s.lru| && s.lru[i] == y;
      assert kept[i] == name;
    }
    forall i, j | 0 <= i < j < |kept|
      ensures kept[i] != kept[j]
    {
      assert s.lru[i] in live && s.lru[j] in live;
    }
  }

  lemma NamesOfParts(lru: seq<Image>, k: nat, x: Image)
    requires k < |lru|
    ensures NamesOf(Remove(lru, k) + [x]) == Remove(NamesOf(lru), k) + [x.name]
    ensures NamesOf(lru[1..]) == NamesOf(lru)[1..]
  {
  }

  lemma NamesOfAdded(lru: seq<Image>, x: Image)
    ensures NamesOf(lru + [x]) == NamesOf(lru) + [x.name]
  {
  }

  lemma NamesOfStep(s: Cache, name: string)
    requires Inv(s) && (name in s.names || KeyFree(s)) && name != ""
    ensures NamesOf(WrapStep(s, name).0.lru) == Touched(NamesOf(s.lru), name, CAPACITY)
  {
    NamesKnown(s, name);
    if name in s.names {
      HitFinds(s, name);
      var k := Find(s.lru, s.names[name]);
      WithoutAt(NamesOf(s.lru), k);
      NamesOfParts(s.lru, k, s.lru[k]);
    } else {
      MissKeeps(s, name);
      NamesOfAdded(MakeRoom(s).lru, Image(s.next, ToInt(s.next), name));
      if s.lru != [] {
        NamesOfParts(s.lru, 0, s.lru[0]);
      }
    }
  }

  /** The cache holds exactly the 32 names used last, in the order of their last use. */
  lemma {:induction false} CachesLastUsed(run: seq<string>)
    requires After(run).next <= KEYS
    ensures NamesOf(After(run).lru) == LastOf(ByLastUse(run), 32)
  {
    if run != [] {
      var n := |run| - 1;
      RunsKeepInv(run[..n]);
      CachesLastUsed(run[..n]);
      ByLastUseDistinct(run[..n]);
      if run[n] != "" {
        NamesOfStep(After(run[..n]), run[n]);
        LastOfTouched(ByLastUse(run[..n]), run[n], CAPACITY);
      }
    }
  }

  // ----- when the keys run out

  /** A key held by an image that stays: two names end up with one key. */
  lemma TakenKeyClashes(s: Cache, name: string, x: Image)
    requires InStep(Live(s.lru), s.names) && name != "" && name !in s.names
    requires |s.lru| < CAPACITY || s.lru[0].key != ToInt(s.next)
    requires x in Live(s.lru) && x.key == ToInt(s.next)
    ensures !Inv(WrapStep(s, name).0)
  {
    var t := WrapStep(s, name).0;
    assert x.name in t.names && name in t.names && t.names[x.name] == t.names[name];
    if Inv(t) {
      NamesMatchKeys(t);
      assert false;
    }
  }

  /** A key held by the image that is evicted: which of its two names is erased. */
  lemma EvictedNames(s: Cache, name: string, x: Image)
    requires Inv(s) && name !in s.names && x in s.lru
    ensures var names := s.names[name := x.key];
            Forget(names, x.key) ==
              if Before(x.name, name) then Forget(s.names, x.key)[name := x.key] else s.names
  {
    assert x in Live(s.lru);
    NamesMatchKeys(s);
    BeforeTotal(x.name, name);
    var names := s.names[name := x.key];
    forall n
      ensures IsFirst(names, x.key, n) <==> n == if Before(x.name, name) then x.name else name
    {
    }
    forall n
      ensures IsFirst(s.names, x.key, n) <==> n == x.name
    {
    }
  }

  lemma OldestKeyTaken(s: Cache, name: string)
    requires Inv(s) && name != "" && name !in s.names
    requires |s.lru| == CAPACITY && s.lru[0].key == ToInt(s.next)
    ensures Inv(WrapStep(s, name).0) <==> Before(s.lru[0].name, name)
  {
    var x, image, t := s.lru[0], Image(s.next, ToInt(s.next), name), WrapStep(s, name).0;
    EvictedNames(s, name, x);
    OthersDiffer(s);
    assert t.lru == s.lru[1..] + [image];
    if Before(x.name, name) {
      EvictKeeps(s);
      AddKeeps(Evict(s), image);
      assert t == Cache(Evict(s).names[name := image.key], Evict(s).lru + [image], s.next + 1, Evict(s).deleted);
    } else {
      assert t.names == s.names && image in Live(t.lru);
    }
  }

  lemma OthersDiffer(s: Cache)
    requires Inv(s) && s.lru != []
    ensures forall y | y in s.lru[1..] :: y.key != s.lru[0].key
  {
    forall y | y in s.lru[1..]
      ensures y.key != s.lru[0].key
    {
      var j :| 0 <= j < |s.lru| - 1 && s.lru[1..][j] == y;
      assert s.lru[0] != s.lru[j + 1] && s.lru[0] in Live(s.lru) && s.lru[j + 1] in Live(s.lru);
    }
  }

  /** A miss keeps the containers in step exactly when its key is free, or is held by the image it evicts and that
      image's name comes first in the map. */
  lemma MissKeepsIff(s: Cache, name: string)
    requires Inv(s) && name != "" && name !in s.names
    ensures Inv(WrapStep(s, name).0) <==>
            || KeyFree(s)
            || (|s.lru| == CAPACITY && s.lru[0].key == ToInt(s.next) && Before(s.lru[0].name, name))
  {
    if KeyFree(s) {
      MissKeeps(s, name);
    } else if |s.lru| == CAPACITY && s.lru[0].key == ToInt(s.next) {
      OldestKeyTaken(s, name);
    } else {
      var x :| x in s.lru && x.key == ToInt(s.next);
      assert x in Live(s.lru);
      TakenKeyClashes(s, name, x);
    }
  }

  /** How many fillers the cache holds beside the buffer kept in use. */
  const OTHERS: nat := 31

  /** The names of the other buffers come round again after 32. */
  function Filler(i: nat): string {
    seq(i % CAPACITY + 1, _ => 'x')
  }

  /** The longest name that is read of a buffer. */
  const MAX_NAME: nat := 1023

  /** A run that keeps one buffer in use while `k` others come and go. */
  function HotRun(hot: string, k: nat): seq<string> {
    if k == 0 then [hot] else HotRun(hot, k - 1) + [Filler(k), hot]
  }

  lemma AfterOne(run: seq<string>, n: string)
    ensures After(run + [n]) == WrapStep(After(run), n).0
  {
    assert (run + [n])[..|run|] == run;
  }

  lemma AfterTwo(run: seq<string>, m: string, n: string)
    ensures After(run + [m, n]) == WrapStep(WrapStep(After(run), m).0, n).0
  {
    AfterOne(run, m);
    AfterOne(run + [m], n);
    assert run + [m] + [n] == run + [m, n];
  }

  /** The last fillers of `k`, at most 31, oldest first. */
  function Recent(k: nat): (names: seq<string>)
    ensures |names| == if k < OTHERS then k else OTHERS
    ensures forall i | 0 <= i < |names| :: names[i] == Filler(k - |names| + 1 + i)
  {
    if k < OTHERS then seq(k, i requires 0 <= i < k => Filler(1 + i))
    else seq(OTHERS, i requires 0 <= i < OTHERS => Filler(k - OTHERS + 1 + i))
  }

  /** Names this far apart are not the same. */
  lemma FillersDiffer(i: nat, j: nat)
    requires i < j < i + CAPACITY
    ensures Filler(i) != Filler(j)
  {
    assert i % CAPACITY != j % CAPACITY;
    assert |Filler(i)| != |Filler(j)|;
  }

  lemma FillerNew(k: nat, hot: string)
    requires NoFiller(hot)
    ensures Filler(k + 1) !in Recent(k) + [hot] && Filler(k + 1) != hot && hot !in Recent(k)
  {
    var names := Recent(k);
    assert Filler(k + 1)[0] == 'x';
    forall i | 0 <= i < |names|
      ensures names[i] != Filler(k + 1) && names[i] != hot
    {
      FillersDiffer(k - |names| + 1 + i, k + 1);
      assert names[i][0] == 'x';
    }
  }

  /** `k + 1` images have been built; the cache holds the last fillers and then the first image. */
  ghost predicate Hot(s: Cache, hot: string, k: nat) {
    s.next == k + 1 && NamesOf(s.lru) == Recent(k) + [hot] && Image(0, 0, hot) in s.lru
  }

  predicate NoFiller(hot: string) {
    hot != "" && hot[0] != 'x'
  }

  lemma HotStart(hot: string)
    requires NoFiller(hot)
    ensures Hot(After([hot]), hot, 0)
  {
    assert [] + [hot] == [hot];
    AfterOne([], hot);
    WrapMiss(EMPTY, hot);
    assert After([hot]).lru == [Image(0, 0, hot)];
    assert NamesOf(After([hot]).lru) == [hot];
  }

  /** The last fillers when the oldest has made room for the next. */
  function Kept(k: nat): seq<string> {
    if |Recent(k)| < OTHERS then Recent(k) else Recent(k)[1..]
  }

  lemma NextRecent(k: nat)
    ensures Kept(k) + [Filler(k + 1)] == Recent(k + 1)
  {
  }

  /** As `Hot`, but the filler used last comes after the first image. */
  ghost predicate Warm(s: Cache, hot: string, k: nat) {
    s.next == k + 2 && NamesOf(s.lru) == Kept(k) + [hot, Filler(k + 1)] && Image(0, 0, hot) in s.lru
  }

  lemma HotIsLast(s: Cache, hot: string, k: nat)
    requires Inv(s) && Hot(s, hot, k)
    ensures s.lru != [] && s.lru[|s.lru| - 1] == Image(0, 0, hot)
  {
    var last := s.lru[|s.lru| - 1];
    assert NamesOf(s.lru)[|s.lru| - 1] == hot;
    assert last in Live(s.lru) && Image(0, 0, hot) in Live(s.lru);
  }

  lemma TouchedFiller(k: nat, hot: string)
    requires NoFiller(hot)
    ensures Touched(Recent(k) + [hot], Filler(k + 1), CAPACITY) == Kept(k) + [hot, Filler(k + 1)]
  {
    FillerNew(k, hot);
    if |Recent(k)| == OTHERS {
      assert (Recent(k) + [hot])[1..] == Recent(k)[1..] + [hot];
    }
  }

  lemma HotCools(s: Cache, hot: string, k: nat, f: string)
    requires Inv(s) && Hot(s, hot, k) && k + 1 < KEYS && f == Filler(k + 1) && NoFiller(hot)
    ensures Inv(WrapStep(s, f).0) && Warm(WrapStep(s, f).0, hot, k)
  {
    KeyFreeBelowLimit(s);
    FillerNew(k, hot);
    NamesKnown(s, f);
    HotIsLast(s, hot, k);
    YoungestSurvives(s, f);
    MissKeeps(s, f);
    WrapMiss(s, f);
    NamesOfStep(s, f);
    TouchedFiller(k, hot);
  }

  lemma {:induction false} WithoutMiddle(kept: seq<string>, hot: string, f: string)
    requires hot !in kept && f != hot
    ensures Without(kept + [hot, f], hot) == kept + [f]
  {
    var all := kept + [hot, f];
    if kept == [] {
      assert all[0] == hot && all[1..] == [f];
      assert Without([f], hot) == [f] + Without([f][1..], hot) == [f];
    } else {
      assert all[0] == kept[0] && all[1..] == kept[1..] + [hot, f];
      WithoutMiddle(kept[1..], hot, f);
    }
  }

  lemma TouchedHot(k: nat, hot: string)
    requires NoFiller(hot)
    ensures Touched(Kept(k) + [hot, Filler(k + 1)], hot, CAPACITY) == Recent(k + 1) + [hot]
  {
    FillerNew(k, hot);
    var names := Kept(k) + [hot, Filler(k + 1)];
    assert names[|Kept(k)|] == hot;
    WithoutMiddle(Kept(k), hot, Filler(k + 1));
    NextRecent(k);
  }

  lemma WarmHeats(t: Cache, hot: string, k: nat)
    requires Inv(t) && Warm(t, hot, k) && NoFiller(hot)
    ensures Hot(WrapStep(t, hot).0, hot, k + 1)
  {
    assert NamesOf(t.lru)[|Kept(k)|] == hot;
    NamesKnown(t, hot);
    HitKeeps(t, hot);
    NamesOfStep(t, hot);
    TouchedHot(k, hot);
    assert Image(0, 0, hot) in Live(t.lru);
  }

  lemma HotNext(run: seq<string>, hot: string, k: nat, f: string, next: seq<string>)
    requires Hot(After(run), hot, k) && k + 1 < KEYS && next == run + [f, hot]
    requires f == Filler(k + 1) && NoFiller(hot)
    ensures Hot(After(next), hot, k + 1)
  {
    RunsKeepInv(run);
    AfterTwo(run, f, hot);
    HotCools(After(run), hot, k, f);
    WarmHeats(WrapStep(After(run), f).0, hot, k);
  }

  /** One round: from `run` to `next`. */
  predicate Round(run: seq<string>, next: seq<string>, hot: string, j: nat) {
    next == run + [Filler(j), hot]
  }

  /** What holds at the start and is kept by each round holds of the whole run. */
  lemma {:induction false} EveryRound(holds: (seq<string>, nat) -> bool, hot: string, k: nat)
    requires k < KEYS && holds([hot], 0)
    requires forall run, next, i: nat, j: nat | holds(run, i) && Round(run, next, hot, j) && j == i + 1 < KEYS ::
               holds(next, j)
    ensures holds(HotRun(hot, k), k)
  {
    if k > 0 {
      EveryRound(holds, hot, k - 1);
      assert Round(HotRun(hot, k - 1), HotRun(hot, k), hot, k);
    }
  }

  lemma HotRunReaches(hot: string, k: nat)
    requires k < KEYS && NoFiller(hot)
    ensures Hot(After(HotRun(hot, k)), hot, k)
  {
    var holds: (seq<string>, nat) -> bool := (run: seq<string>, i: nat) => Hot(After(run), hot, i);
    HotStart(hot);
    forall run, next, i: nat, j: nat | holds(run, i) && Round(run, next, hot, j) && j == i + 1 < KEYS
      ensures holds(next, j)
    {
      HotNext(run, hot, i, Filler(j), next);
    }
    EveryRound(holds, hot, k);
  }

  /** No name of the run is longer than what the source reads. */
  lemma {:induction false} HotRunNames(hot: string, k: nat)
    requires |hot| <= MAX_NAME
    ensures forall n | n in HotRun(hot, k) :: |n| <= MAX_NAME
  {
    if k > 0 {
      HotRunNames(hot, k - 1);
    }
  }

  lemma TakenKeyNotCached(s: Cache, name: string, k: nat)
    requires Inv(s) && name != "" && name !in s.names
    requires 0 < k < |s.lru| && s.lru[k].key == ToInt(s.next)
    ensures WrapStep(s, name).1.value !in WrapStep(s, name).0.lru
  {
    var image := Image(s.next, ToInt(s.next), name);
    var t := MakeRoom(s.(names := s.names[name := image.key]));
    var j := if |s.lru| >= CAPACITY then k - 1 else k;
    assert t.lru[j].key == image.key;
    assert WrapStep(s, name).0.lru == t.lru;
    forall x | x in t.lru
      ensures x.id < s.next
    {
      assert x in Live(s.lru);
    }
  }

  lemma HotRunsOut(s: Cache, hot: string, f: string)
    requires Inv(s) && Hot(s, hot, KEYS - 1) && f == Filler(KEYS) && NoFiller(hot)
    ensures !KeyFree(s) && !Inv(WrapStep(s, f).0)
    ensures WrapStep(s, f).1.value !in WrapStep(s, f).0.lru
  {
    var k := |s.lru| - 1;
    var a := s.lru[k];
    FillerNew(KEYS - 1, hot);
    NamesKnown(s, f);
    HotIsLast(s, hot, KEYS - 1);
    assert |s.lru| == |NamesOf(s.lru)| == CAPACITY;
    assert a in Live(s.lru) && a in s.lru && ToInt(s.next) == 0;
    assert s.lru[0] in Live(s.lru) && s.lru[0] != a;
    TakenKeyClashes(s, f, a);
    TakenKeyNotCached(s, f, k);
  }

  /** The limit is real: after 2^32 images, with the first buffer kept in use and 32 short names taking turns beside it,
      the next new buffer gets the first one's key, its image is not cached and the containers disagree. */
  lemma KeysRunOut(hot: string)
    requires NoFiller(hot) && |hot| <= MAX_NAME
    ensures var run, f := HotRun(hot, KEYS - 1), Filler(KEYS);
            && (forall n | n in run + [f] :: |n| <= MAX_NAME)
            && Inv(After(run)) && !KeyFree(After(run))
            && !Inv(WrapStep(After(run), f).0)
            && WrapStep(After(run), f).1.value !in WrapStep(After(run), f).0.lru
  {
    HotRunNames(hot, KEYS - 1);
    HotRunReaches(hot, KEYS - 1);
    RunsKeepInv(HotRun(hot, KEYS - 1));
    HotRunsOut(After(HotRun(hot, KEYS - 1)), hot, Filler(KEYS));
  }

  // ----- the wrapper object

  lemma FirstErased(names: map<string, int>, key: int, n: string)
    requires IsFirst(names, key, n)
    ensures Forget(names, key) == names - {n}
  {
    forall m
      ensures IsFirst(names, key, m) <==> m == n
    {
      BeforeTotal(m, n);
    }
  }

  class EGLImageWrapper {
    var buffStrbuffIntMap: map<string, int>
    var eglImageBufferCache: seq<Image>
    var buffInt: nat
    var mapClearPending: bool
    var deleted: seq<Image>

    ghost function Abs(): Cache
      reads this
    {
      Cache(buffStrbuffIntMap, eglImageBufferCache, buffInt, deleted)
    }

    constructor ()
      ensures Abs() == EMPTY && !mapClearPending
    {
      buffStrbuffIntMap, eglImageBufferCache, buffInt := map[], [], 0;
      mapClearPending, deleted := false, [];
    }

    /** The eviction callback: a search, in the map's order, for the first name mapped to the key. */
    method EntryRemoved(key: int, image: Image)
      modifies this`deleted, this`buffStrbuffIntMap
      ensures deleted == old(deleted) + [image]
      ensures buffStrbuffIntMap ==
                if mapClearPending then old(buffStrbuffIntMap) else Forget(old(buffStrbuffIntMap), key)
    {
      deleted := deleted + [image];
      if !mapClearPending {
        var left := buffStrbuffIntMap.Keys;
        while left != {}
          invariant left <= buffStrbuffIntMap.Keys && buffStrbuffIntMap == old(buffStrbuffIntMap)
          invariant forall n | n in buffStrbuffIntMap && n !in left :: buffStrbuffIntMap[n] != key
          invariant deleted == old(deleted) + [image]
          decreases left
        {
          LeastExists(left);
          var n :| Least(left, n);
          left := left - {n};
          if buffStrbuffIntMap[n] == key {
            buffStrbuffIntMap := buffStrbuffIntMap - {n};
            FirstErased(old(buffStrbuffIntMap), key, n);
            return;
          }
        }
        assert buffStrbuffIntMap == Forget(old(buffStrbuffIntMap), key);
      }
    }

    method CacheGet(key: int) returns (image: Option<Image>)
      modifies this`eglImageBufferCache
      ensures (eglImageBufferCache, image) == Get(old(eglImageBufferCache), key)
    {
      var k := Find(eglImageBufferCache, key);
      if k == |eglImageBufferCache| {
        return None;
      }
      image := Some(eglImageBufferCache[k]);
      eglImageBufferCache := eglImageBufferCache[..k] + eglImageBufferCache[k + 1..] + [eglImageBufferCache[k]];
    }

    method CachePut(image: Image)
      requires !mapClearPending
      modifies this`eglImageBufferCache, this`deleted, this`buffStrbuffIntMap
      ensures Abs() == Put(old(Abs()), image)
    {
      if |eglImageBufferCache| >= CAPACITY {
        var oldest := eglImageBufferCache[0];
        eglImageBufferCache := eglImageBufferCache[1..];
        EntryRemoved(oldest.key, oldest);
      }
      if Find(eglImageBufferCache, image.key) < |eglImageBufferCache| {
        return;
      }
      eglImageBufferCache := eglImageBufferCache + [image];
    }

    /** `wrap` for a buffer whose name has been read; the empty string stands for an unreadable one. */
    method Wrap(name: string) returns (image: Option<Image>)
      requires !mapClearPending
      modifies this
      ensures !mapClearPending && (Abs(), image) == WrapStep(old(Abs()), name)
    {
      image := None;
      if name != "" {
        if name in buffStrbuffIntMap {
          image := CacheGet(buffStrbuffIntMap[name]);
        } else {
          var built := Image(buffInt, ToInt(buffInt), name);
          buffStrbuffIntMap := buffStrbuffIntMap[name := built.key];
          CachePut(built);
          buffInt := buffInt + 1;
          image := Some(built);
        }
      }
    }

    /** The destructor: clears the cache, deleting every image still in it, then the names. */
    method Destroy()
      modifies this
      ensures Abs() == DestroyStep(old(Abs()))
    {
      mapClearPending := true;
      var i := 0;
      while i < |eglImageBufferCache|
        invariant 0 <= i <= |eglImageBufferCache| && mapClearPending
        invariant eglImageBufferCache == old(eglImageBufferCache) && buffInt == old(buffInt)
        invariant deleted == old(deleted) + eglImageBufferCache[..i]
      {
        deleted := deleted + [eglImageBufferCache[i]];
        i := i + 1;
      }
      eglImageBufferCache := [];
      buffStrbuffIntMap := map[];
    }
  }
}

/** The variant of the cache for kernels with ION handles: images are cached under the cookie the kernel
    returns when the buffer is imported, and every import is to be undone exactly once. */
module IonCookieCache {
  import EglImageCache
  import opened LastUsed

  /** `cookies` are the cached keys, least recently used first; `imports` counts outstanding imports. */
  datatype Cookies = Cookies(cookies: seq<int>, imports: multiset<int>)

  /** One call: the cookie looked up and whether importing gave it. A failed import leaves the buffer's
      descriptor as the cookie, with nothing to undo. */
  datatype Call = Call(cookie: int, imported: bool)

  function Find(cookies: seq<int>, c: int): (k: nat)
    ensures k <= |cookies| && (k < |cookies| ==> cookies[k] == c)
    ensures k == |cookies| ==> c !in cookies
  {
    Index(cookies, x => x == c)
  }

  /** `wrap`: import, look up, and on a hit free the cookie again; on a miss, evicting frees the oldest. The
      kernel refuses to free a cookie that is not imported. */
  function WrapStep(s: Cookies, call: Call): Cookies {
    var c := call.cookie;
    var imports := if call.imported then s.imports + multiset{c} else s.imports;
    var k := Find(s.cookies, c);
    if k < |s.cookies| then
      Cookies(Remove(s.cookies, k) + [c], imports - multiset{c})
    else if |s.cookies| >= EglImageCache.CAPACITY then
      Cookies(s.cookies[1..] + [c], imports - multiset{s.cookies[0]})
    else Cookies(s.cookies + [c], imports)
  }

  function After(run: seq<Call>): Cookies {
    if run == [] then Cookies([], multiset{}) else WrapStep(After(run[..|run| - 1]), run[|run| - 1])
  }

  ghost predicate Balanced(s: Cookies) {
    s.imports == multiset(s.cookies) && |s.cookies| <= EglImageCache.CAPACITY && NoRepeats(s.cookies)
  }

  lemma Moved(cookies: seq<int>, k: nat)
    requires k < |cookies| && NoRepeats(cookies)
    ensures var t := Remove(cookies, k) + [cookies[k]];
            multiset(t) == multiset(cookies) && NoRepeats(t)
  {
    assert cookies == cookies[..k] + [cookies[k]] + cookies[k + 1..];
  }

  lemma OldestFirst(cookies: seq<int>)
    requires cookies != []
    ensures multiset(cookies) == multiset(cookies[1..]) + multiset{cookies[0]}
  {
    assert cookies == [cookies[0]] + cookies[1..];
  }

  lemma Appended(cookies: seq<int>, c: int)
    ensures multiset(cookies + [c]) == multiset(cookies) + multiset{c}
  {
  }

  lemma AddedDistinct(cookies: seq<int>, c: int)
    requires NoRepeats(cookies) && c !in cookies
    ensures NoRepeats(cookies + [c]) && (cookies != [] ==> NoRepeats(cookies[1..] + [c]))
  {
  }

  /** One import too few cannot be balanced. */
  lemma OneMissing(m: multiset<int>, c: int)
    ensures m != m + multiset{c} && (c in m ==> m - multiset{c} != m) && m + multiset{c} - multiset{c} == m
  {
    assert (m + multiset{c})[c] == m[c] + 1;
    assert c in m ==> (m - multiset{c})[c] == m[c] - 1;
  }

  lemma SwapOldest(rest: multiset<int>, oldest: int, c: int)
    ensures rest + multiset{oldest} + multiset{c} - multiset{oldest} == rest + multiset{c}
    ensures rest + multiset{oldest} - multiset{oldest} == rest
  {
  }

  lemma HitKeepsIff(s: Cookies, call: Call, k: nat)
    requires Balanced(s) && k < |s.cookies| && k == Find(s.cookies, call.cookie)
    ensures Balanced(WrapStep(s, call)) <==> call.imported
  {
    Moved(s.cookies, k);
    OneMissing(s.imports, call.cookie);
    assert call.cookie in s.cookies;
    assert WrapStep(s, call).imports ==
           if call.imported then s.imports + multiset{call.cookie} - multiset{call.cookie}
           else s.imports - multiset{call.cookie};
  }

  lemma EvictingMiss(s: Cookies, call: Call, rest: seq<int>)
    requires Balanced(s) && call.cookie !in s.cookies && |s.cookies| == EglImageCache.CAPACITY && rest == s.cookies[1..]
    ensures WrapStep(s, call) ==
            Cookies(rest + [call.cookie],
                    if call.imported then multiset(rest) + multiset{call.cookie} else multiset(rest))
  {
    OldestFirst(s.cookies);
    SwapOldest(multiset(rest), s.cookies[0], call.cookie);
  }

  lemma EvictingMissKeepsIff(s: Cookies, call: Call)
    requires Balanced(s) && call.cookie !in s.cookies && |s.cookies| == EglImageCache.CAPACITY
    ensures Balanced(WrapStep(s, call)) <==> call.imported
  {
    var rest := s.cookies[1..];
    EvictingMiss(s, call, rest);
    AddedDistinct(s.cookies, call.cookie);
    OneMissing(multiset(rest), call.cookie);
    Appended(rest, call.cookie);
  }

  lemma PlainMissKeepsIff(s: Cookies, call: Call)
    requires Balanced(s) && call.cookie !in s.cookies && |s.cookies| < EglImageCache.CAPACITY
    ensures Balanced(WrapStep(s, call)) <==> call.imported
  {
    AddedDistinct(s.cookies, call.cookie);
    OneMissing(s.imports, call.cookie);
    Appended(s.cookies, call.cookie);
  }

  /** A call keeps imports and entries balanced exactly when its import succeeds. */
  lemma WrapKeepsIff(s: Cookies, call: Call)
    requires Balanced(s)
    ensures Balanced(WrapStep(s, call)) <==> call.imported
  {
    var k := Find(s.cookies, call.cookie);
    if k < |s.cookies| {
      HitKeepsIff(s, call, k);
    } else if |s.cookies| == EglImageCache.CAPACITY {
      EvictingMissKeepsIff(s, call);
    } else {
      PlainMissKeepsIff(s, call);
    }
  }

  /** In every run whose imports succeed the outstanding imports are exactly the cached entries, one each, so that
      freeing one import per entry when the cache is cleared leaves none; the first import that fails ends that. */
  lemma {:induction false} ImportsAreEntries(run: seq<Call>)
    ensures (forall i | 0 <= i < |run| :: run[i].imported) ==> Balanced(After(run))
    ensures run != [] && (forall i | 0 <= i < |run| - 1 :: run[i].imported) && !run[|run| - 1].imported
            ==> !Balanced(After(run))
  {
    if run != [] {
      ImportsAreEntries(run[..|run| - 1]);
      if Balanced(After(run[..|run| - 1])) {
        WrapKeepsIff(After(run[..|run| - 1]), run[|run| - 1]);
      }
    }
  }

  /** The distinct cookies of a run, least recently used first. */
  function ByLastUse(run: seq<Call>): seq<int> {
    if run == [] then []
    else
      var c := run[|run| - 1].cookie;
      Without(ByLastUse(run[..|run| - 1]), c) + [c]
  }

  lemma {:induction false} ByLastUseDistinct(run: seq<Call>)
    ensures NoRepeats(ByLastUse(run))
  {
    if run != [] {
      ByLastUseDistinct(run[..|run| - 1]);
      UseDistinct(ByLastUse(run[..|run| - 1]), run[|run| - 1].cookie);
    }
  }

  lemma WrapTouches(s: Cookies, call: Call)
    requires NoRepeats(s.cookies)
    ensures WrapStep(s, call).cookies == Touched(s.cookies, call.cookie, EglImageCache.CAPACITY)
  {
    var k := Find(s.cookies, call.cookie);
    if k < |s.cookies| {
      WithoutAt(s.cookies, k);
    }
  }

  lemma LastOfDistinct(all: seq<int>, c: nat)
    requires NoRepeats(all)
    ensures NoRepeats(LastOf(all, c))
  {
  }

  /** Whatever imports succeed, the cache holds exactly the 32 cookies used last, in the order of their last use. */
  lemma {:induction false} CachesLastCookies(run: seq<Call>)
    ensures After(run).cookies == LastOf(ByLastUse(run), 32)
  {
    if run != [] {
      var before, call := run[..|run| - 1], run[|run| - 1];
      CachesLastCookies(before);
      ByLastUseDistinct(before);
      LastOfDistinct(ByLastUse(before), EglImageCache.CAPACITY);
      WrapTouches(After(before), call);
      LastOfTouched(ByLastUse(before), call.cookie, EglImageCache.CAPACITY);
    }
  }
}
