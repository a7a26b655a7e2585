/** The gralloc buffer manager: reference-counted handles and the file descriptors they own. Handles are named by
    their addresses, which may be reused once a handle is deleted; descriptors are numbered in the order in which
    the kernel hands them out, so that closing one twice shows. */
module BufferLifecycle {

  /** The transported part of a `private_handle_t`; `client` is the flag for memory allocated elsewhere and -1 stands
      for no descriptor. A handle may still name a descriptor that was closed. */
  datatype Handle = Handle(fd: int, meta: int, client: bool)

  /** What the kernel answers for the main and for the metadata descriptor. */
  datatype Answer = Answer(main: bool, meta: bool)

  /** The two allocators. `Legacy` asks the kernel to import a descriptor; `Libion` takes its number as it is. */
  datatype Build = Legacy | Libion

  datatype State = State(
    objects: map<nat, Handle>,  // handles in memory
    refs: map<nat, int>,        // the handle map with each buffer's reference count
    next: nat,                  // descriptors handed out so far
    closed: seq<int>,           // descriptors closed, in order
    lost: seq<int>,             // descriptors no handle was built for, in order
    registered: seq<nat>,       // registrations, in order
    freed: seq<nat>)            // runs of FreeBuffer, in order

  const Start := State(map[], map[], 0, [], [], [], [])

  datatype Op =
    | Create(p: nat, hasMeta: bool)                         // a client builds a handle of its own
    | Allocate(p: nat, alloc: Answer)
    | Share(src: nat, p: nat, dup: Answer)
    | Retain(p: nat, ion: Answer)
    | Release(p: nat, unmap: Answer)
    | Import(src: nat, p: nat, dup: Answer, ion: Answer)

  // ----- steps

  predicate Open(s: State, fd: int) {
    fd >= 0 && fd !in s.closed
  }

  /** `close`; a negative descriptor is refused without effect. */
  function Close(s: State, fd: int): State {
    if fd < 0 then s else s.(closed := s.closed + [fd])
  }

  /** `RegisterHandleLocked`: emplacing leaves an entry that is already there alone. */
  function Register(s: State, p: nat): State {
    if p in s.refs then s else s.(refs := s.refs[p := 1], registered := s.registered + [p])
  }

  function NewHandle(s: State, p: nat, has: Answer, client: bool): State {
    var meta := if has.main then s.next + 1 else s.next;
    s.(objects := s.objects[p := Handle(if has.main then s.next else -1, if has.meta then meta else -1, client)],
       next := if has.meta then meta + 1 else meta)
  }

  /** A descriptor handed out and closed again. */
  function Spend(s: State): State {
    s.(next := s.next + 1, closed := s.closed + [s.next])
  }

  /** A descriptor handed out to nobody. */
  function Lose(s: State): State {
    s.(next := s.next + 1, lost := s.lost + [s.next])
  }

  /** `AllocateBuffer`: when only the metadata cannot be allocated, nothing keeps the descriptor already allocated. */
  function AllocateStep(s: State, p: nat, alloc: Answer): (State, bool) {
    if !alloc.main then (s, false)
    else if !alloc.meta then (Lose(s), false)
    else (Register(NewHandle(s, p, alloc, false), p), true)
  }

  /** What the kernel duplicates of `h`; a closed descriptor it never does. */
  function Duplicated(s: State, h: Handle, dup: Answer): Answer {
    Answer(Open(s, h.fd) && dup.main, Open(s, h.meta) && dup.meta)
  }

  /** `CreateSharedHandle`: what cannot be duplicated becomes -1, and the handle is registered all the same. */
  function ShareStep(s: State, src: nat, p: nat, dup: Answer): State
    requires src in s.objects
  {
    Register(NewHandle(s, p, Duplicated(s, s.objects[src], dup), false), p)
  }

  /** Handle `p` loses its numbers, or is deleted. */
  function Cleared(s: State, p: nat, keep: bool): State
    requires p in s.objects
  {
    s.(objects := if keep then s.objects[p := s.objects[p].(fd := -1, meta := -1)] else s.objects - {p})
  }

  /** Closes the numbers of handle `p` and clears it. */
  function Dropped(s: State, p: nat, keep: bool): State
    requires p in s.objects
  {
    Cleared(Close(Close(s, s.objects[p].fd), s.objects[p].meta), p, keep)
  }

  /** `BufferManager::FreeBuffer`. A mapping that cannot be removed ends it: that descriptor is closed by then, and the
      handle goes on naming it. */
  function FreeStep(s: State, p: nat, unmap: Answer): State {
    if p !in s.objects then s
    else
      var h := s.objects[p];
      var main := Close(s, h.fd);
      (if !unmap.main then main
       else if h.meta >= 0 && !unmap.meta then Close(main, h.meta)
       else Dropped(s, p, h.client)).(freed := s.freed + [p])
  }

  /** What importing gives for each number of `h`. */
  function Imported(build: Build, s: State, h: Handle, ion: Answer): Answer {
    match build
    case Legacy => Answer(Open(s, h.fd) && ion.main, Open(s, h.meta) && ion.meta)
    case Libion => Answer(h.fd >= 0, h.meta >= 0)
  }

  /** `ImportHandleLocked`. */
  function ImportHandle(build: Build, s: State, p: nat, ion: Answer): (State, bool) {
    if p !in s.objects then (s, false)
    else
      var got := Imported(build, s, s.objects[p], ion);
      if !got.main then (s, false)
      else if s.objects[p].meta >= 0 && !got.meta then (Dropped(s, p, true), false)
      else (Register(s, p), true)
  }

  function RetainStep(build: Build, s: State, p: nat, ion: Answer): (State, bool) {
    if p in s.refs then (s.(refs := s.refs[p := s.refs[p] + 1]), true) else ImportHandle(build, s, p, ion)
  }

  function ReleaseStep(s: State, p: nat, unmap: Answer): (State, bool) {
    if p !in s.refs then (s, false)
    else if s.refs[p] - 1 == 0 then (FreeStep(s.(refs := s.refs - {p}), p, unmap), true)
    else (s.(refs := s.refs[p := s.refs[p] - 1]), true)
  }

  /** `native_handle_clone`: every descriptor is duplicated; the first that cannot be undoes the others. The flags are
      copied. */
  function CloneStep(s: State, src: nat, p: nat, dup: Answer): (State, bool) {
    if src !in s.objects then (s, false)
    else
      var got := Duplicated(s, s.objects[src], dup);
      if !got.main then (s, false)
      else if !got.meta then (Spend(s), false)
      else (NewHandle(s, p, Answer(true, true), s.objects[src].client), true)
  }

  /** `native_handle_close` and `native_handle_delete`. */
  function CloseAndDelete(s: State, p: nat): State {
    if p !in s.objects then s else Dropped(s, p, false)
  }

  function ImportStep(build: Build, s: State, src: nat, p: nat, dup: Answer, ion: Answer): (State, bool) {
    var (cloned, ok) := CloneStep(s, src, p, dup);
    if !ok then (cloned, false)
    else
      var (retained, done) := RetainStep(build, cloned, p, ion);
      if done then (retained, true) else (CloseAndDelete(retained, p), false)
  }

  /** One call and whether it succeeded. A new handle's address is one no handle in memory has. */
  function Apply(build: Build, s: State, op: Op): (State, bool) {
    match op
    case Create(p, hasMeta) =>
      if p in s.objects then (s, false) else (NewHandle(s, p, Answer(true, hasMeta), true), true)
    case Allocate(p, alloc) => if p in s.objects then (s, false) else AllocateStep(s, p, alloc)
    case Share(src, p, dup) =>
      if p in s.objects || src !in s.objects then (s, false) else (ShareStep(s, src, p, dup), true)
    case Retain(p, ion) => RetainStep(build, s, p, ion)
    case Release(p, unmap) => ReleaseStep(s, p, unmap)
    case Import(src, p, dup, ion) =>
      if p in s.objects then (s, false) else ImportStep(build, s, src, p, dup, ion)
  }

  function After(build: Build, ops: seq<Op>): State {
    if ops == [] then Start else Apply(build, After(build, ops[..|ops| - 1]), ops[|ops| - 1]).0
  }

  // ----- what every run keeps

  predicate Owns(h: Handle, fd: int) {
    h.fd == fd || h.meta == fd
  }

  predicate Held(s: State, p: nat, fd: int) {
    p in s.objects && Owns(s.objects[p], fd)
  }

  /** Registered handles are in memory and referenced; metadata is closed only after the main descriptor. */
  ghost predicate Registered(s: State) {
    forall p :: p in s.refs ==> && p in s.objects && s.refs[p] >= 1
                                && (s.objects[p].meta in s.closed ==> s.objects[p].fd in s.closed)
  }

  /** A handle names two different numbers; its metadata is closed only when no main descriptor is open. */
  predicate Proper(s: State, h: Handle) {
    && -1 <= h.fd && -1 <= h.meta && (h.fd == h.meta ==> h.fd == -1)
    && (h.meta in s.closed ==> !Open(s, h.fd))
  }

  ghost predicate OwnedOnce(s: State) {
    && (forall p :: p in s.objects ==> Proper(s, s.objects[p]))
    && (forall p, q, fd :: Held(s, p, fd) && Held(s, q, fd) && fd >= 0 ==> p == q)
    && (forall p, fd :: Held(s, p, fd) && fd >= 0 ==> fd < s.next && fd !in s.lost)
  }

  /** Only descriptors handed out are closed or lost, and none is both. */
  ghost predicate Ledgers(s: State) {
    && (forall fd :: fd in s.closed ==> 0 <= fd < s.next && fd !in s.lost)
    && (forall fd :: fd in s.lost ==> 0 <= fd < s.next)
  }

  /** Every descriptor is accounted for: it was closed, was lost or is some handle's. */
  ghost predicate Accounted(s: State) {
    forall fd: nat :: fd < s.next && fd !in s.closed && fd !in s.lost ==> exists p :: Held(s, p, fd)
  }

  /** Each registration is freed once, or is still in the map. */
  ghost predicate FreedOnce(s: State) {
    forall p :: multiset(s.registered)[p] == multiset(s.freed)[p] + if p in s.refs then 1 else 0
  }

  ghost predicate Descriptors(s: State) {
    OwnedOnce(s) && Ledgers(s) && Accounted(s)
  }

  ghost predicate Inv(s: State) {
    Registered(s) && Descriptors(s) && FreedOnce(s)
  }

  lemma StartInv()
    ensures Inv(Start)
  {
  }

  /** A new handle takes new descriptors. */
  lemma NewKeeps(s: State, p: nat, has: Answer, client: bool)
    requires Descriptors(s) && p !in s.objects
    ensures Descriptors(NewHandle(s, p, has, client))
  {
    var s' := NewHandle(s, p, has, client);
    forall fd: nat | fd < s'.next && fd !in s'.closed && fd !in s'.lost
      ensures exists q :: Held(s', q, fd)
    {
      if fd < s.next {
        var q :| Held(s, q, fd);
        assert Held(s', q, fd);
      } else {
        assert Held(s', p, fd);
      }
    }
    forall q, fd | Held(s', q, fd) && fd >= 0
      ensures fd < s'.next && fd !in s'.lost && (fd < s.next ==> Held(s, q, fd))
    {
      if q != p {
        assert Held(s, q, fd);
      }
    }
    forall q, r, fd | Held(s', q, fd) && Held(s', r, fd) && fd >= 0
      ensures q == r
    {
      if q != p {
        assert Held(s, q, fd);
      }
      if r != p {
        assert Held(s, r, fd);
      }
    }
  }

  /** Closing a number of a handle that is not its open main descriptor's metadata. */
  lemma CloseKeeps(s: State, p: nat, fd: int)
    requires Descriptors(s) && Held(s, p, fd) && (fd == s.objects[p].fd || !Open(s, s.objects[p].fd))
    ensures Descriptors(Close(s, fd))
  {
    var s' := Close(s, fd);
    assert forall q, x :: Held(s', q, x) <==> Held(s, q, x);
    forall q | q in s.objects
      ensures Proper(s', s.objects[q])
    {
      assert Proper(s, s.objects[q]) && Held(s, q, s.objects[q].meta) && Held(s, q, s.objects[q].fd);
    }
  }

  /** A handle without an open descriptor may be cleared. */
  lemma ClearKeeps(s: State, p: nat, keep: bool)
    requires Descriptors(s) && p in s.objects && !Open(s, s.objects[p].fd) && !Open(s, s.objects[p].meta)
    ensures Descriptors(Cleared(s, p, keep))
  {
    var s' := Cleared(s, p, keep);
    forall q, fd | Held(s', q, fd) && fd >= 0
      ensures Held(s, q, fd)
    {
    }
    forall fd: nat | fd < s'.next && fd !in s'.closed && fd !in s'.lost
      ensures exists q :: Held(s', q, fd)
    {
      var q :| Held(s, q, fd);
      assert Held(s', q, fd);
    }
  }

  lemma CloseBothKeeps(s: State, p: nat)
    requires Descriptors(s) && p in s.objects
    ensures Descriptors(Close(s, s.objects[p].fd))
    ensures Descriptors(Close(Close(s, s.objects[p].fd), s.objects[p].meta))
  {
    CloseKeeps(s, p, s.objects[p].fd);
    CloseKeeps(Close(s, s.objects[p].fd), p, s.objects[p].meta);
  }

  lemma DropKeeps(s: State, p: nat, keep: bool)
    requires Descriptors(s) && p in s.objects
    ensures Descriptors(Dropped(s, p, keep))
  {
    CloseBothKeeps(s, p);
    ClearKeeps(Close(Close(s, s.objects[p].fd), s.objects[p].meta), p, keep);
  }

  lemma SameDescriptors(s: State, s': State)
    requires Descriptors(s) && s'.objects == s.objects && s'.next == s.next
    requires s'.closed == s.closed && s'.lost == s.lost
    ensures Descriptors(s')
  {
    assert forall q, fd :: Held(s', q, fd) <==> Held(s, q, fd);
    assert forall q :: q in s.objects ==> Proper(s, s.objects[q]) && Proper(s', s.objects[q]);
  }

  lemma RegisterKeeps(s: State, p: nat)
    requires Inv(s) && p in s.objects && (s.objects[p].meta in s.closed ==> s.objects[p].fd in s.closed)
    ensures Inv(Register(s, p))
  {
    SameDescriptors(s, Register(s, p));
  }

  lemma NewRegisteredKeeps(s: State, p: nat, has: Answer, client: bool)
    requires Inv(s) && p !in s.objects
    ensures Inv(NewHandle(s, p, has, client)) && Inv(Register(NewHandle(s, p, has, client), p))
  {
    NewKeeps(s, p, has, client);
    RegisterKeeps(NewHandle(s, p, has, client), p);
  }

  /** From `s` to `s'` only numbers of `p` are closed. */
  ghost predicate ClosesOwn(s: State, s': State, p: nat) {
    && (forall fd :: fd in s.closed ==> fd in s'.closed)
    && (forall fd :: fd in s'.closed ==> fd in s.closed || (fd >= 0 && Held(s, p, fd)))
  }

  /** Closing a handle's numbers leaves the other registered handles as they were. */
  lemma OthersRegistered(s: State, p: nat, s': State)
    requires Registered(s) && Descriptors(s) && s'.refs == s.refs - {p} && ClosesOwn(s, s', p)
    requires s'.objects - {p} == s.objects - {p}
    ensures Registered(s')
  {
    forall q | q in s'.refs
      ensures q in s'.objects && s'.refs[q] >= 1 && (s'.objects[q].meta in s'.closed ==> s'.objects[q].fd in s'.closed)
    {
      assert q in (s.objects - {p}) && q in (s'.objects - {p}) && s'.objects[q] == (s'.objects - {p})[q];
      assert Held(s, q, s.objects[q].meta);
    }
  }

  lemma DropCloses(s: State, p: nat, keep: bool)
    requires p in s.objects
    ensures ClosesOwn(s, Dropped(s, p, keep), p) && Dropped(s, p, keep).objects - {p} == s.objects - {p}
  {
  }

  lemma DroppedKeeps(s: State, p: nat, keep: bool)
    requires Inv(s) && p in s.objects && p !in s.refs
    ensures Inv(Dropped(s, p, keep))
  {
    DropKeeps(s, p, keep);
    DropCloses(s, p, keep);
    assert s.refs - {p} == s.refs;
    OthersRegistered(s, p, Dropped(s, p, keep));
  }

  lemma CountKeeps(s: State, p: nat, n: int)
    requires Inv(s) && p in s.refs && n >= 1
    ensures Inv(s.(refs := s.refs[p := n]))
  {
    SameDescriptors(s, s.(refs := s.refs[p := n]));
  }

  lemma RetainKeeps(build: Build, s: State, p: nat, ion: Answer, s': State)
    requires Inv(s)
    requires s' == RetainStep(build, s, p, ion).0
    ensures Inv(s')
  {
    if p in s.refs {
      CountKeeps(s, p, s.refs[p] + 1);
    } else if p in s.objects {
      var got := Imported(build, s, s.objects[p], ion);
      assert Proper(s, s.objects[p]);
      if got.main {
        if s.objects[p].meta >= 0 && !got.meta {
          DroppedKeeps(s, p, true);
        } else {
          RegisterKeeps(s, p);
        }
      }
    }
  }

  lemma FreeKeeps(s: State, p: nat, unmap: Answer)
    requires Descriptors(s) && p in s.objects
    ensures Descriptors(FreeStep(s, p, unmap))
  {
    var h := s.objects[p];
    CloseBothKeeps(s, p);
    DropKeeps(s, p, h.client);
    SameDescriptors(if !unmap.main then Close(s, h.fd)
                    else if h.meta >= 0 && !unmap.meta then Close(Close(s, h.fd), h.meta)
                    else Dropped(s, p, h.client), FreeStep(s, p, unmap));
  }

  lemma FreeCloses(s: State, p: nat, unmap: Answer)
    requires p in s.objects
    ensures ClosesOwn(s, FreeStep(s, p, unmap), p) && FreeStep(s, p, unmap).objects - {p} == s.objects - {p}
    ensures FreeStep(s, p, unmap).registered == s.registered && FreeStep(s, p, unmap).freed == s.freed + [p]
    ensures FreeStep(s, p, unmap).refs == s.refs
  {
    DropCloses(s, p, s.objects[p].client);
  }

  lemma FreedOnceMore(s: State, p: nat, s': State)
    requires FreedOnce(s) && p in s.refs && s'.refs == s.refs - {p}
    requires s'.registered == s.registered && s'.freed == s.freed + [p]
    ensures FreedOnce(s')
  {
  }

  lemma LastReleaseKeeps(s: State, p: nat, unmap: Answer)
    requires Inv(s) && p in s.refs
    ensures Inv(FreeStep(s.(refs := s.refs - {p}), p, unmap))
  {
    var erased := s.(refs := s.refs - {p});
    var s' := FreeStep(erased, p, unmap);
    SameDescriptors(s, erased);
    FreeKeeps(erased, p, unmap);
    FreeCloses(erased, p, unmap);
    ErasedRegistered(s, erased, p, s');
    FreedOnceMore(s, p, s');
  }

  lemma ErasedRegistered(s: State, erased: State, p: nat, s': State)
    requires Registered(s) && Descriptors(s) && erased == s.(refs := s.refs - {p}) && Descriptors(erased)
    requires s'.refs == erased.refs && ClosesOwn(erased, s', p) && s'.objects - {p} == s.objects - {p}
    ensures Registered(s')
  {
    assert forall fd :: Held(erased, p, fd) == Held(s, p, fd);
    OthersRegistered(s, p, s');
  }

  lemma ReleaseKeeps(s: State, p: nat, unmap: Answer, s': State)
    requires Inv(s)
    requires s' == ReleaseStep(s, p, unmap).0
    ensures Inv(s')
  {
    if p in s.refs {
      if s.refs[p] == 1 {
        LastReleaseKeeps(s, p, unmap);
      } else {
        CountKeeps(s, p, s.refs[p] - 1);
      }
    }
  }

  lemma SpendKeeps(s: State)
    requires Inv(s)
    ensures Inv(Spend(s))
  {
    var s' := Spend(s);
    assert s.next in s'.closed && forall q, fd :: Held(s', q, fd) <==> Held(s, q, fd);
    forall q | q in s.objects
      ensures Proper(s', s.objects[q]) && s.objects[q].fd != s.next && s.objects[q].meta != s.next
    {
      assert Proper(s, s.objects[q]) && Held(s, q, s.objects[q].meta) && Held(s, q, s.objects[q].fd);
    }
  }

  lemma LoseKeeps(s: State)
    requires Inv(s)
    ensures Inv(Lose(s))
  {
    var s' := Lose(s);
    assert s.next in s'.lost && forall q, fd :: Held(s', q, fd) <==> Held(s, q, fd);
    assert forall q :: q in s.objects ==> Proper(s, s.objects[q]) && Proper(s', s.objects[q]);
  }

  /** An import that fails after cloning closes both clones, once each, and leaves nothing else behind. */
  lemma FailedImport(build: Build, s: State, src: nat, p: nat, dup: Answer, ion: Answer)
    requires Inv(s) && p !in s.objects && CloneStep(s, src, p, dup).1
    requires !ImportStep(build, s, src, p, dup, ion).1
    ensures ImportStep(build, s, src, p, dup, ion).0 == Spend(Spend(s))
  {
    var cloned := NewHandle(s, p, Answer(true, true), s.objects[src].client);
    assert cloned.objects - {p} == s.objects;
    var retained := RetainStep(build, cloned, p, ion).0;
    if ion.main {
      assert retained == Dropped(cloned, p, true);
      assert retained.objects - {p} == s.objects;
      assert CloseAndDelete(retained, p) == retained.(objects := s.objects);
    } else {
      assert retained == cloned;
    }
  }

  /** What an import leaves: a registered clone, or what the clone took closed again. */
  lemma ImportLeaves(build: Build, s: State, src: nat, p: nat, dup: Answer, ion: Answer, s': State)
    requires Inv(s) && p !in s.objects
    requires s' == ImportStep(build, s, src, p, dup, ion).0
    ensures || s' == s || s' == Spend(s) || s' == Spend(Spend(s))
            || exists client :: s' == Register(NewHandle(s, p, Answer(true, true), client), p)
  {
    if CloneStep(s, src, p, dup).1 {
      if ImportStep(build, s, src, p, dup, ion).1 {
        assert s' == Register(NewHandle(s, p, Answer(true, true), s.objects[src].client), p);
      } else {
        FailedImport(build, s, src, p, dup, ion);
      }
    }
  }

  lemma ImportKeeps(build: Build, s: State, src: nat, p: nat, dup: Answer, ion: Answer, s': State)
    requires Inv(s) && p !in s.objects
    requires s' == ImportStep(build, s, src, p, dup, ion).0
    ensures Inv(s')
  {
    ImportLeaves(build, s, src, p, dup, ion, s');
    SpendKeeps(s);
    SpendKeeps(Spend(s));
    NewRegisteredKeeps(s, p, Answer(true, true), true);
    NewRegisteredKeeps(s, p, Answer(true, true), false);
  }

  lemma AllocateKeeps(s: State, p: nat, alloc: Answer, s': State)
    requires Inv(s) && p !in s.objects
    requires s' == AllocateStep(s, p, alloc).0
    ensures Inv(s')
  {
    if alloc.main {
      if alloc.meta {
        NewRegisteredKeeps(s, p, alloc, false);
      } else {
        LoseKeeps(s);
      }
    }
  }

  lemma ApplyKeeps(build: Build, s: State, op: Op)
    requires Inv(s)
    ensures Inv(Apply(build, s, op).0)
  {
    var s' := Apply(build, s, op).0;
    match op
    case Create(p, hasMeta) =>
      if p !in s.objects {
        NewRegisteredKeeps(s, p, Answer(true, hasMeta), true);
      }
    case Allocate(p, alloc) =>
      if p !in s.objects {
        AllocateKeeps(s, p, alloc, s');
      }
    case Share(src, p, dup) =>
      if p !in s.objects && src in s.objects {
        NewRegisteredKeeps(s, p, Duplicated(s, s.objects[src], dup), false);
      }
    case Retain(p, ion) => RetainKeeps(build, s, p, ion, s');
    case Release(p, unmap) => ReleaseKeeps(s, p, unmap, s');
    case Import(src, p, dup, ion) =>
      if p !in s.objects {
        ImportKeeps(build, s, src, p, dup, ion, s');
      }
  }

  /** Every run of either build keeps all of it, whatever the kernel answers: no number belongs to two handles, each
      descriptor is accounted for, each registration is freed once. */
  lemma {:induction false} RunsKeepInv(build: Build, ops: seq<Op>)
    ensures Inv(After(build, ops))
  {
    if ops == [] {
      StartInv();
    } else {
      RunsKeepInv(build, ops[..|ops| - 1]);
      ApplyKeeps(build, After(build, ops[..|ops| - 1]), ops[|ops| - 1]);
    }
  }

  // ----- what one call leaves alone

  predicate Untouched(s: State, s': State, q: nat) {
    && (q in s.objects <==> q in s'.objects) && (q in s.objects ==> s'.objects[q] == s.objects[q])
    && (q in s.refs <==> q in s'.refs) && (q in s.refs ==> s'.refs[q] == s.refs[q])
  }

  lemma ImportTouches(build: Build, s: State, op: Op, q: nat)
    requires Inv(s) && op.Import? && (q != op.p || !Apply(build, s, op).1)
    ensures Untouched(s, Apply(build, s, op).0, q)
  {
    if op.p !in s.objects && CloneStep(s, op.src, op.p, op.dup).1 && !Apply(build, s, op).1 {
      FailedImport(build, s, op.src, op.p, op.dup, op.ion);
    }
  }

  lemma ReleaseTouches(build: Build, s: State, op: Op, q: nat)
    requires op.Release? && q != op.p
    ensures Untouched(s, Apply(build, s, op).0, q)
  {
  }

  lemma RetainTouches(build: Build, s: State, op: Op, q: nat)
    requires op.Retain? && q != op.p
    ensures Untouched(s, Apply(build, s, op).0, q)
  {
  }

  /** A call leaves every handle but the one it names alone. */
  lemma Touches(build: Build, s: State, op: Op, q: nat)
    requires Inv(s) && q != op.p
    ensures Untouched(s, Apply(build, s, op).0, q)
  {
    match op
    case Release(_, _) => ReleaseTouches(build, s, op, q);
    case Retain(_, _) => RetainTouches(build, s, op, q);
    case Import(_, _, _, _) => ImportTouches(build, s, op, q);
    case _ =>
  }

  lemma ImportCloses(build: Build, s: State, op: Op, fd: int)
    requires Inv(s) && op.Import?
    ensures var s' := Apply(build, s, op).0;
            s.closed <= s'.closed && (fd in s'.closed && fd !in s.closed ==> fd >= s.next)
  {
    if op.p !in s.objects && CloneStep(s, op.src, op.p, op.dup).1 && !Apply(build, s, op).1 {
      FailedImport(build, s, op.src, op.p, op.dup, op.ion);
    }
  }

  lemma ReleaseCloses(build: Build, s: State, op: Op, fd: int)
    requires op.Release?
    ensures var s' := Apply(build, s, op).0;
            s.closed <= s'.closed && (fd in s'.closed && fd !in s.closed ==> Held(s, op.p, fd))
  {
  }

  /** A call closes only numbers of the handle it names, and ones it has just been given. */
  lemma Closes(build: Build, s: State, op: Op, fd: int)
    requires Inv(s)
    ensures var s' := Apply(build, s, op).0;
            s.closed <= s'.closed && (fd in s'.closed && fd !in s.closed ==> fd >= s.next || Held(s, op.p, fd))
  {
    match op
    case Release(_, _) => ReleaseCloses(build, s, op, fd);
    case Import(_, _, _, _) => ImportCloses(build, s, op, fd);
    case _ =>
  }

  /** A number of another handle stays as open as it was. */
  lemma StaysOpen(build: Build, s: State, op: Op, q: nat, fd: int, s': State)
    requires Inv(s) && q != op.p && Held(s, q, fd) && s' == Apply(build, s, op).0
    ensures Open(s', fd) <==> Open(s, fd)
    ensures fd in s'.closed <==> fd in s.closed
  {
    Closes(build, s, op, fd);
    ApplyKeeps(build, s, op);
    NotClosed(s, s', op.p, q, fd);
  }

  lemma NotClosed(s: State, s': State, p: nat, q: nat, fd: int)
    requires OwnedOnce(s) && Ledgers(s) && q != p && Held(s, q, fd) && s.closed <= s'.closed
    requires fd in s'.closed && fd !in s.closed ==> fd >= s.next || Held(s, p, fd)
    requires Ledgers(s')
    ensures fd in s'.closed <==> fd in s.closed
  {
    if fd in s.closed {
      var i :| 0 <= i < |s.closed| && s.closed[i] == fd;
      assert s'.closed[i] == fd;
    }
  }

  // ----- reference counts

  /** What one successful call adds to the references on `p`. */
  function Change(build: Build, s: State, op: Op, p: nat): int {
    if op.p != p || op.Create? || !Apply(build, s, op).1 then 0 else if op.Release? then -1 else 1
  }

  /** References on `p` taken less references given back, over the successful calls of a run. */
  function Balance(build: Build, ops: seq<Op>, p: nat): int {
    if ops == [] then 0
    else
      var before := ops[..|ops| - 1];
      Balance(build, before, p) + Change(build, After(build, before), ops[|ops| - 1], p)
  }

  function RefCount(s: State, p: nat): int {
    if p in s.refs then s.refs[p] else 0
  }

  lemma ApplyCounts(build: Build, s: State, op: Op, p: nat)
    requires Inv(s)
    ensures RefCount(Apply(build, s, op).0, p) == RefCount(s, p) + Change(build, s, op, p)
  {
    if p != op.p {
      Touches(build, s, op, p);
    } else if op.Import? && !Apply(build, s, op).1 {
      ImportTouches(build, s, op, p);
    }
  }

  /** A handle is in the map exactly while its balance is positive, and the count kept is that balance. */
  lemma {:induction false} RefsAreBalance(build: Build, ops: seq<Op>, p: nat)
    ensures RefCount(After(build, ops), p) == Balance(build, ops, p) >= 0
    ensures p in After(build, ops).refs <==> Balance(build, ops, p) > 0
  {
    if ops != [] {
      var before := ops[..|ops| - 1];
      RunsKeepInv(build, before);
      RefsAreBalance(build, before, p);
      ApplyCounts(build, After(build, before), ops[|ops| - 1], p);
    }
    RunsKeepInv(build, ops);
  }

  // ----- closing twice

  /** No descriptor is closed twice. */
  ghost predicate ClosedOnce(s: State) {
    forall i, j :: 0 <= i < j < |s.closed| ==> s.closed[i] != s.closed[j]
  }

  /** Handle `p` is registered and names no closed descriptor. */
  predicate Fresh(s: State, p: nat) {
    p in s.refs && p in s.objects ==> s.objects[p].fd !in s.closed && s.objects[p].meta !in s.closed
  }

  /** No descriptor was closed twice, and none that is closed is registered, to be closed again. */
  ghost predicate Sound(s: State) {
    ClosedOnce(s) && forall p :: Fresh(s, p)
  }

  /** Retaining, with an allocator that does not ask the kernel, a handle whose main descriptor is closed. */
  predicate Revives(build: Build, s: State, op: Op) {
    build.Libion? && op.Retain? && op.p !in s.refs && op.p in s.objects && s.objects[op.p].fd in s.closed
  }

  /** Some call of the run does so. */
  predicate RunRevives(build: Build, ops: seq<Op>) {
    if ops == [] then false
    else
      var before := ops[..|ops| - 1];
      RunRevives(build, before) || Revives(build, After(build, before), ops[|ops| - 1])
  }

  lemma CloseOnce(s: State, fd: int)
    requires ClosedOnce(s) && fd !in s.closed
    ensures ClosedOnce(Close(s, fd))
  {
  }

  lemma CloseAgain(s: State, fd: int)
    requires fd >= 0 && fd in s.closed
    ensures !ClosedOnce(Close(s, fd))
  {
    var i :| 0 <= i < |s.closed| && s.closed[i] == fd;
    var now := Close(s, fd).closed;
    assert now[i] == now[|s.closed|];
  }

  lemma LongerClosed(s: State, s': State)
    requires s.closed <= s'.closed && ClosedOnce(s')
    ensures ClosedOnce(s)
  {
    assert forall i :: 0 <= i < |s.closed| ==> s.closed[i] == s'.closed[i];
  }

  lemma CloseBothOnce(s: State, h: Handle)
    requires ClosedOnce(s) && h.fd !in s.closed && h.meta !in s.closed && (h.fd == h.meta ==> h.fd == -1)
    ensures ClosedOnce(Close(s, h.fd)) && ClosedOnce(Close(Close(s, h.fd), h.meta))
  {
    CloseOnce(s, h.fd);
    CloseOnce(Close(s, h.fd), h.meta);
  }

  /** The last release of a handle closes no descriptor twice exactly when the handle names no closed one. */
  lemma LastReleaseOnceIff(s: State, p: nat, unmap: Answer)
    requires Inv(s) && p in s.refs && ClosedOnce(s)
    ensures ClosedOnce(FreeStep(s.(refs := s.refs - {p}), p, unmap)) <==> Fresh(s, p)
  {
    var erased, h := s.(refs := s.refs - {p}), s.objects[p];
    var main := Close(erased, h.fd);
    assert Proper(s, h);
    if Fresh(s, p) {
      CloseBothOnce(erased, h);
    } else {
      CloseAgain(erased, h.fd);
      if ClosedOnce(FreeStep(erased, p, unmap)) {
        LongerClosed(main, FreeStep(erased, p, unmap));
        assert false;
      }
    }
  }

  lemma RetainOnce(build: Build, s: State, op: Op)
    requires Inv(s) && ClosedOnce(s) && op.Retain?
    ensures ClosedOnce(Apply(build, s, op).0)
  {
    if op.p in s.objects {
      var h := s.objects[op.p];
      assert Proper(s, h);
      if Open(s, h.fd) {
        CloseBothOnce(s, h);
      }
    }
  }

  lemma SpendOnce(s: State)
    requires Inv(s) && ClosedOnce(s)
    ensures ClosedOnce(Spend(s)) && ClosedOnce(Spend(Spend(s)))
  {
    CloseOnce(s, s.next);
    CloseOnce(Close(s, s.next), s.next + 1);
  }

  lemma ImportOnce(build: Build, s: State, op: Op)
    requires Inv(s) && ClosedOnce(s) && op.Import?
    ensures ClosedOnce(Apply(build, s, op).0)
  {
    SpendOnce(s);
    if op.p !in s.objects && CloneStep(s, op.src, op.p, op.dup).1 && !Apply(build, s, op).1 {
      FailedImport(build, s, op.src, op.p, op.dup, op.ion);
    }
  }

  /** Only the last release of a handle that names a closed descriptor closes one twice. */
  lemma OnceIff(build: Build, s: State, op: Op)
    requires Inv(s) && ClosedOnce(s)
    ensures ClosedOnce(Apply(build, s, op).0) <==> (Frees(s, op) ==> Fresh(s, op.p))
  {
    match op
    case Release(p, unmap) =>
      if Frees(s, op) {
        LastReleaseOnceIff(s, p, unmap);
      }
    case Retain(_, _) => RetainOnce(build, s, op);
    case Import(_, _, _, _) => ImportOnce(build, s, op);
    case _ =>
  }

  /** The call takes the last reference of a handle. */
  predicate Frees(s: State, op: Op) {
    op.Release? && op.p in s.refs && s.refs[op.p] == 1
  }

  lemma OtherFreshIff(build: Build, s: State, op: Op, q: nat)
    requires Inv(s) && q != op.p
    ensures Fresh(Apply(build, s, op).0, q) <==> Fresh(s, q)
  {
    Touches(build, s, op, q);
    if q in s.objects {
      StaysOpen(build, s, op, q, s.objects[q].fd, Apply(build, s, op).0);
      StaysOpen(build, s, op, q, s.objects[q].meta, Apply(build, s, op).0);
    }
  }

  lemma ReleaseFreshIff(build: Build, s: State, op: Op)
    requires Inv(s) && op.Release?
    ensures Fresh(Apply(build, s, op).0, op.p) <==> Frees(s, op) || Fresh(s, op.p)
  {
  }

  lemma RetainFreshIff(build: Build, s: State, op: Op)
    requires Inv(s) && op.Retain?
    ensures Fresh(Apply(build, s, op).0, op.p) <==> Fresh(s, op.p) && !Revives(build, s, op)
  {
    if op.p in s.objects {
      assert Proper(s, s.objects[op.p]);
    }
  }

  lemma ImportFresh(build: Build, s: State, op: Op)
    requires Inv(s) && op.Import?
    ensures Fresh(Apply(build, s, op).0, op.p) <==> Fresh(s, op.p)
  {
    if !Apply(build, s, op).1 {
      ImportTouches(build, s, op, op.p);
      ImportCloses(build, s, op, if op.p in s.objects then s.objects[op.p].fd else 0);
      ImportCloses(build, s, op, if op.p in s.objects then s.objects[op.p].meta else 0);
      assert op.p in s.objects ==> Held(s, op.p, s.objects[op.p].fd) && Held(s, op.p, s.objects[op.p].meta);
    }
  }

  lemma NamedFreshIff(build: Build, s: State, op: Op)
    requires Inv(s)
    ensures Fresh(Apply(build, s, op).0, op.p) <==> Frees(s, op) || (Fresh(s, op.p) && !Revives(build, s, op))
  {
    match op
    case Release(_, _) => ReleaseFreshIff(build, s, op);
    case Retain(_, _) => RetainFreshIff(build, s, op);
    case Import(_, _, _, _) => ImportFresh(build, s, op);
    case _ =>
  }

  /** A call keeps descriptors from being closed twice, now or later, exactly when it does not revive a handle. */
  lemma SoundIff(build: Build, s: State, op: Op)
    requires Inv(s)
    ensures Sound(Apply(build, s, op).0) <==> Sound(s) && !Revives(build, s, op)
  {
    var s' := Apply(build, s, op).0;
    Closes(build, s, op, 0);
    NamedFreshIff(build, s, op);
    if ClosedOnce(s) {
      OnceIff(build, s, op);
    } else if ClosedOnce(s') {
      LongerClosed(s, s');
      assert false;
    }
    forall q | q != op.p
      ensures Fresh(s', q) <==> Fresh(s, q)
    {
      OtherFreshIff(build, s, op, q);
    }
  }

  /** In every run of either build no descriptor is closed twice, and none that is closed is registered again, if and
      only if no handle whose main descriptor is closed is retained without asking the kernel. */
  lemma {:induction false} SoundRunIff(build: Build, ops: seq<Op>)
    ensures Sound(After(build, ops)) <==> !RunRevives(build, ops)
  {
    if ops != [] {
      var before := ops[..|ops| - 1];
      SoundRunIff(build, before);
      RunsKeepInv(build, before);
      SoundIff(build, After(build, before), ops[|ops| - 1]);
    }
  }

  /** Once every reference is given back, this decides whether a descriptor was closed twice. */
  lemma ClosedOnceIff(build: Build, ops: seq<Op>)
    requires After(build, ops).refs == map[]
    ensures ClosedOnce(After(build, ops)) <==> !RunRevives(build, ops)
  {
    SoundRunIff(build, ops);
  }

  lemma {:induction false} LegacyNeverRevives(ops: seq<Op>)
    ensures !RunRevives(Legacy, ops)
  {
    if ops != [] {
      LegacyNeverRevives(ops[..|ops| - 1]);
    }
  }

  /** When the kernel is asked, no run closes a descriptor twice. */
  lemma LegacyClosesOnce(ops: seq<Op>)
    ensures ClosedOnce(After(Legacy, ops))
  {
    LegacyNeverRevives(ops);
    SoundRunIff(Legacy, ops);
  }

  // ----- leaks

  /** Allocating the metadata fails after the main allocation. */
  predicate Loses(s: State, op: Op) {
    op.Allocate? && op.p !in s.objects && op.alloc.main && !op.alloc.meta
  }

  predicate RunLoses(build: Build, ops: seq<Op>) {
    if ops == [] then false
    else
      var before := ops[..|ops| - 1];
      RunLoses(build, before) || Loses(After(build, before), ops[|ops| - 1])
  }

  /** The main mapping cannot be removed on the last release of a handle whose metadata descriptor is open. */
  predicate Halves(s: State, op: Op) {
    Frees(s, op) && op.p in s.objects && Open(s, s.objects[op.p].meta) && !op.unmap.main
  }

  /** The latest last release of `p` did so. */
  predicate HalfFreed(build: Build, ops: seq<Op>, p: nat) {
    if ops == [] then false
    else
      var before, op := ops[..|ops| - 1], ops[|ops| - 1];
      if op.p == p && Frees(After(build, before), op) then Halves(After(build, before), op)
      else HalfFreed(build, before, p)
  }

  /** Of the handle's descriptors only the metadata's is open. */
  predicate Half(s: State, p: nat) {
    p in s.objects && !Open(s, s.objects[p].fd) && Open(s, s.objects[p].meta)
  }

  predicate Stranded(s: State, p: nat) {
    p !in s.refs && Half(s, p)
  }

  lemma OtherHalfIff(build: Build, s: State, op: Op, q: nat)
    requires Inv(s) && q != op.p
    ensures Half(Apply(build, s, op).0, q) <==> Half(s, q)
    ensures q in Apply(build, s, op).0.refs <==> q in s.refs
  {
    Touches(build, s, op, q);
    if q in s.objects {
      StaysOpen(build, s, op, q, s.objects[q].fd, Apply(build, s, op).0);
      StaysOpen(build, s, op, q, s.objects[q].meta, Apply(build, s, op).0);
    }
  }

  lemma ReleaseHalf(build: Build, s: State, op: Op)
    requires Inv(s) && op.Release?
    ensures var s' := Apply(build, s, op).0;
            if Frees(s, op) then op.p !in s'.refs && (Half(s', op.p) <==> Halves(s, op))
            else s'.closed == s.closed && s'.objects == s.objects && (op.p in s'.refs <==> op.p in s.refs)
  {
    if Frees(s, op) {
      FreeHalf(s.(refs := s.refs - {op.p}), op.p, op.unmap);
    }
  }

  lemma FreeHalf(s: State, p: nat, unmap: Answer)
    requires p in s.objects && Proper(s, s.objects[p])
    ensures Half(FreeStep(s, p, unmap), p) <==> Open(s, s.objects[p].meta) && !unmap.main
  {
  }

  /** A call that does not free the handle it names. */
  lemma NamedHalf(build: Build, s: State, op: Op)
    requires Inv(s) && !Frees(s, op)
    ensures Half(s, op.p) ==> Half(Apply(build, s, op).0, op.p)
    ensures Stranded(Apply(build, s, op).0, op.p) ==> Stranded(s, op.p)
  {
    match op
    case Release(_, _) => ReleaseHalf(build, s, op);
    case Import(_, _, _, _) => ImportHalf(build, s, op);
    case Retain(_, _) => RetainHalf(build, s, op);
    case _ =>
  }

  lemma RetainHalf(build: Build, s: State, op: Op)
    requires Inv(s) && op.Retain?
    ensures Half(s, op.p) ==> Half(Apply(build, s, op).0, op.p)
    ensures Stranded(Apply(build, s, op).0, op.p) ==> Stranded(s, op.p)
  {
  }

  lemma ImportHalf(build: Build, s: State, op: Op)
    requires Inv(s) && op.Import?
    ensures Half(s, op.p) ==> Half(Apply(build, s, op).0, op.p)
    ensures Stranded(Apply(build, s, op).0, op.p) ==> Stranded(s, op.p)
  {
    if op.p !in s.objects && !Apply(build, s, op).1 {
      ImportTouches(build, s, op, op.p);
    }
  }

  lemma {:induction false} HalfFreedIs(build: Build, ops: seq<Op>, p: nat)
    ensures HalfFreed(build, ops, p) ==> Half(After(build, ops), p)
    ensures Stranded(After(build, ops), p) ==> HalfFreed(build, ops, p)
  {
    if ops != [] {
      var before, op := ops[..|ops| - 1], ops[|ops| - 1];
      var s := After(build, before);
      HalfFreedIs(build, before, p);
      RunsKeepInv(build, before);
      if op.p != p {
        OtherHalfIff(build, s, op, p);
      } else if Frees(s, op) {
        ReleaseHalf(build, s, op);
      } else {
        NamedHalf(build, s, op);
      }
    }
  }

  /** In every run a handle outside the map holds an open metadata descriptor alone if and only if its latest last
      release could not remove its main mapping. */
  lemma StrandedIff(build: Build, ops: seq<Op>, p: nat)
    ensures Stranded(After(build, ops), p) <==> p !in After(build, ops).refs && HalfFreed(build, ops, p)
  {
    HalfFreedIs(build, ops, p);
  }

  lemma ReleaseLoses(build: Build, s: State, op: Op)
    requires op.Release? || op.Retain?
    ensures Apply(build, s, op).0.lost == s.lost
  {
  }

  lemma LosesIff(build: Build, s: State, op: Op)
    requires Inv(s)
    ensures Apply(build, s, op).0.lost == s.lost + if Loses(s, op) then [s.next] else []
  {
    match op
    case Release(_, _) => ReleaseLoses(build, s, op);
    case Retain(_, _) => ReleaseLoses(build, s, op);
    case Import(_, _, _, _) =>
      if op.p !in s.objects && CloneStep(s, op.src, op.p, op.dup).1 && !Apply(build, s, op).1 {
        FailedImport(build, s, op.src, op.p, op.dup, op.ion);
      }
    case _ =>
  }

  lemma {:induction false} LostIff(build: Build, ops: seq<Op>)
    ensures After(build, ops).lost != [] <==> RunLoses(build, ops)
  {
    if ops != [] {
      var before := ops[..|ops| - 1];
      LostIff(build, before);
      RunsKeepInv(build, before);
      LosesIff(build, After(build, before), ops[|ops| - 1]);
    }
  }

  /** A handle in memory that is not in the map is flagged, or has no open main descriptor. */
  predicate ClientOnly(s: State, p: nat) {
    p in s.objects && p !in s.refs ==> s.objects[p].client || !Open(s, s.objects[p].fd)
  }

  lemma NamedKeepsClient(build: Build, s: State, op: Op)
    requires Inv(s) && ClientOnly(s, op.p)
    ensures ClientOnly(Apply(build, s, op).0, op.p)
  {
    match op
    case Import(_, _, _, _) =>
      if op.p !in s.objects && !Apply(build, s, op).1 {
        ImportTouches(build, s, op, op.p);
      }
    case _ =>
  }

  lemma ApplyKeepsClient(build: Build, s: State, op: Op, p: nat)
    requires Inv(s) && ClientOnly(s, p)
    ensures ClientOnly(Apply(build, s, op).0, p)
  {
    if p == op.p {
      NamedKeepsClient(build, s, op);
    } else {
      Touches(build, s, op, p);
      if p in s.objects {
        StaysOpen(build, s, op, p, s.objects[p].fd, Apply(build, s, op).0);
      }
    }
  }

  lemma {:induction false} RunsKeepClients(build: Build, ops: seq<Op>, p: nat)
    ensures ClientOnly(After(build, ops), p)
  {
    if ops != [] {
      var before := ops[..|ops| - 1];
      RunsKeepInv(build, before);
      RunsKeepClients(build, before, p);
      ApplyKeepsClient(build, After(build, before), ops[|ops| - 1], p);
    }
  }

  /** `fd` belongs to a handle that its client built and the manager has not taken apart. */
  ghost predicate ClientHolds(s: State, fd: int) {
    exists p :: Held(s, p, fd) && s.objects[p].client && Open(s, s.objects[p].fd)
  }

  ghost predicate AllGivenBack(s: State) {
    forall fd: nat :: fd < s.next ==> fd in s.closed || ClientHolds(s, fd)
  }

  lemma GivenBackIff(s: State)
    requires Inv(s) && s.refs == map[] && forall p :: ClientOnly(s, p)
    ensures AllGivenBack(s) <==> s.lost == [] && forall p :: !Stranded(s, p)
  {
    if s.lost != [] {
      var fd := s.lost[0];
      assert fd in s.lost;
    } else if p :| Stranded(s, p) {
      var fd := s.objects[p].meta;
      assert Held(s, p, fd);
      assert forall q :: Held(s, q, fd) ==> q == p;
    } else {
      forall fd: nat | fd < s.next && fd !in s.closed
        ensures ClientHolds(s, fd)
      {
        var p :| Held(s, p, fd);
        assert ClientOnly(s, p) && !Stranded(s, p);
      }
    }
  }

  /** Once every reference is given back, every descriptor is closed or with the client that brought it if and only if
      no metadata allocation failed after its main allocation and no handle's latest last release could not remove the
      main mapping while metadata was open. */
  lemma AllReleasedIff(build: Build, ops: seq<Op>)
    requires After(build, ops).refs == map[]
    ensures AllGivenBack(After(build, ops)) <==> !RunLoses(build, ops) && forall p :: !HalfFreed(build, ops, p)
  {
    RunGivenBackIff(build, ops);
    LostIff(build, ops);
    NoneStrandedIff(build, ops);
  }

  lemma RunGivenBackIff(build: Build, ops: seq<Op>)
    requires After(build, ops).refs == map[]
    ensures AllGivenBack(After(build, ops))
            <==> After(build, ops).lost == [] && forall p :: !Stranded(After(build, ops), p)
  {
    var s := After(build, ops);
    RunsKeepInv(build, ops);
    forall p
      ensures ClientOnly(s, p)
    {
      RunsKeepClients(build, ops, p);
    }
    GivenBackIff(s);
  }

  lemma NoneStrandedIff(build: Build, ops: seq<Op>)
    requires After(build, ops).refs == map[]
    ensures (forall p :: !Stranded(After(build, ops), p)) <==> (forall p :: !HalfFreed(build, ops, p))
  {
    if p :| Stranded(After(build, ops), p) {
      StrandedIff(build, ops, p);
      assert HalfFreed(build, ops, p);
    } else if p :| HalfFreed(build, ops, p) {
      StrandedIff(build, ops, p);
      assert false;
    }
  }

  /** When the kernel is asked, no later call makes up for such a release. */
  lemma LegacyNeverMends(ops: seq<Op>, p: nat, op: Op)
    requires p !in After(Legacy, ops).refs && HalfFreed(Legacy, ops, p)
    ensures p !in After(Legacy, ops + [op]).refs && HalfFreed(Legacy, ops + [op], p)
  {
    var s := After(Legacy, ops);
    assert (ops + [op])[..|ops + [op]| - 1] == ops;
    HalfFreedIs(Legacy, ops, p);
    RunsKeepInv(Legacy, ops);
    if op.p != p {
      OtherHalfIff(Legacy, s, op, p);
    } else if op.Import? {
      ImportTouches(Legacy, s, op, p);
    }
  }

  // ----- what single calls give

  /** A successful import gives a handle of its own: two new descriptors, the source's flag, one reference. */
  lemma ImportedIs(build: Build, s: State, src: nat, p: nat, dup: Answer, ion: Answer)
    requires Inv(s) && p !in s.objects && ImportStep(build, s, src, p, dup, ion).1
    ensures var t := ImportStep(build, s, src, p, dup, ion).0;
            && src in s.objects && p in t.objects && t.objects[p] == Handle(s.next, s.next + 1, s.objects[src].client)
            && p in t.refs && t.refs[p] == 1 && t.next == s.next + 2 && t.closed == s.closed
  {
  }

  /** Whether an import succeeds: both descriptors of the source are open and can be duplicated, and the clones can be
      imported, which libion never refuses. */
  lemma ImportsIff(build: Build, s: State, src: nat, p: nat, dup: Answer, ion: Answer)
    requires Inv(s) && p !in s.objects
    ensures ImportStep(build, s, src, p, dup, ion).1 <==>
            && src in s.objects && Open(s, s.objects[src].fd) && Open(s, s.objects[src].meta) && dup.main && dup.meta
            && (build.Legacy? ==> ion.main && ion.meta)
  {
  }

  /** A shared handle owns a new descriptor for each of the source's that is open and can be duplicated. */
  lemma SharedIs(s: State, src: nat, p: nat, dup: Answer)
    requires Inv(s) && src in s.objects && p !in s.objects
    ensures var t, h := ShareStep(s, src, p, dup), s.objects[src];
            && p in t.objects && !t.objects[p].client && p in t.refs && t.refs[p] == 1
            && (t.objects[p].fd == (if Open(s, h.fd) && dup.main then s.next else -1))
            && (t.objects[p].meta >= 0 <==> Open(s, h.meta) && dup.meta)
            && (t.objects[p].meta >= 0 ==> s.next <= t.objects[p].meta < t.next)
  {
  }

  /** A retain that fails leaves the handle alone when the main descriptor cannot be imported; when only the metadata
      cannot, it closes both and the handle has none. */
  lemma FailedRetain(s: State, p: nat, ion: Answer)
    requires Inv(s) && p in s.objects && !RetainStep(Legacy, s, p, ion).1
    ensures var t, h := RetainStep(Legacy, s, p, ion).0, s.objects[p];
            if Open(s, h.fd) && ion.main
            then t.objects[p] == Handle(-1, -1, h.client) && t.closed == s.closed + [h.fd, h.meta] && p !in t.refs
            else t == s
  {
    assert Proper(s, s.objects[p]);
  }

  /** After a last release that could remove its mappings the handle is gone unless its client allocated the memory. */
  lemma LastReleaseDeletesIff(s: State, p: nat, unmap: Answer)
    requires Inv(s) && p in s.refs && s.refs[p] == 1 && unmap.main && (s.objects[p].meta >= 0 ==> unmap.meta)
    ensures var t := ReleaseStep(s, p, unmap).0;
            && p !in t.refs && (p in t.objects <==> s.objects[p].client)
            && (s.objects[p].fd >= 0 ==> s.objects[p].fd in t.closed)
            && (s.objects[p].meta >= 0 ==> s.objects[p].meta in t.closed)
  {
  }

  // ----- runs that show it

  lemma AfterOne(build: Build, ops: seq<Op>, op: Op)
    ensures After(build, ops + [op]) == Apply(build, After(build, ops), op).0
  {
    assert (ops + [op])[..|ops + [op]| - 1] == ops;
  }

  /** A buffer allocated, and released while its main mapping cannot be removed. */
  function HalfRun(p: nat): seq<Op> {
    [Allocate(p, Answer(true, true)), Release(p, Answer(false, true))]
  }

  lemma HalfRunIs(build: Build, p: nat)
    ensures After(build, HalfRun(p)) == State(map[p := Handle(0, 1, false)], map[], 2, [0], [], [p], [p])
    ensures HalfFreed(build, HalfRun(p), p)
  {
    var first, half := [Allocate(p, Answer(true, true))], HalfRun(p);
    AllocatedIs(build, p, first);
    AfterOne(build, first, half[1]);
    assert half[..|half| - 1] == first && first + [half[1]] == half && map[p := 1] - {p} == map[];
  }

  lemma AllocatedIs(build: Build, p: nat, first: seq<Op>)
    requires first == [Allocate(p, Answer(true, true))]
    ensures After(build, first) == State(map[p := Handle(0, 1, false)], map[p := 1], 2, [], [], [p], [])
  {
    AfterOne(build, [], first[0]);
    assert [] + first == first;
  }

  lemma LoseRunIs(build: Build, p: nat)
    ensures RunLoses(build, [Allocate(p, Answer(true, false))])
    ensures After(build, [Allocate(p, Answer(true, false))]).refs == map[]
  {
    AfterOne(build, [], Allocate(p, Answer(true, false)));
    assert [Allocate(p, Answer(true, false))][..0] == [];
  }

  /** Both leaks happen, in either build. */
  lemma LeakingRuns(build: Build, p: nat)
    ensures !AllGivenBack(After(build, [Allocate(p, Answer(true, false))]))
    ensures !AllGivenBack(After(build, HalfRun(p)))
  {
    LoseRunIs(build, p);
    HalfRunIs(build, p);
    HalfLeaks(build, HalfRun(p), p);
    AllReleasedIff(build, [Allocate(p, Answer(true, false))]);
  }

  lemma HalfLeaks(build: Build, ops: seq<Op>, p: nat)
    requires After(build, ops).refs == map[] && HalfFreed(build, ops, p)
    ensures !AllGivenBack(After(build, ops))
  {
    StrandedIff(build, ops, p);
    RunGivenBackIff(build, ops);
  }

  function RevivedRun(p: nat, ion: Answer): seq<Op> {
    HalfRun(p) + [Retain(p, ion)] + [Release(p, Answer(true, true))]
  }

  lemma RevivedRunIs(build: Build, p: nat, ion: Answer)
    ensures var s := After(build, RevivedRun(p, ion));
            && (build.Libion? ==> s == State(map[], map[], 2, [0, 0, 1], [], [p, p], [p, p]))
            && (build.Legacy? ==> s == After(build, HalfRun(p)))
    ensures RunRevives(build, RevivedRun(p, ion)) <==> build.Libion?
  {
    var half, retained, ops := HalfRun(p), HalfRun(p) + [Retain(p, ion)], RevivedRun(p, ion);
    HalfRunIs(build, p);
    AfterOne(build, half, Retain(p, ion));
    AfterOne(build, retained, Release(p, Answer(true, true)));
    assert retained[..|retained| - 1] == half && ops[..|ops| - 1] == retained;
    if build.Libion? {
      assert map[p := Handle(0, 1, false)] - {p} == map[] && map[p := 1] - {p} == map[];
    } else {
      LegacyNeverRevives(ops);
    }
  }

  /** Retaining the half freed buffer and releasing it once more: when the kernel is not asked, that closes its main
      descriptor a second time and the stranded one at last; when it is, nothing happens. */
  lemma RevivedClosesTwice(build: Build, p: nat, ion: Answer)
    ensures var s := After(build, RevivedRun(p, ion));
            && s.closed == (if build.Libion? then [0, 0, 1] else [0])
            && (AllGivenBack(s) <==> build.Libion?)
  {
    RevivedRunIs(build, p, ion);
    HalfRunIs(build, p);
    LeakingRuns(build, p);
  }

  // ----- the manager

  /** The manager's map together with the handles in memory and the kernel's descriptor table. */
  class BufferManager {
    const build: Build
    var objects: map<nat, Handle>
    var refs: map<nat, int>
    var next: nat
    var closed: seq<int>
    ghost var lost: seq<int>
    ghost var registered: seq<nat>
    ghost var freed: seq<nat>

    ghost function Abs(): State
      reads this
    {
      State(objects, refs, next, closed, lost, registered, freed)
    }

    constructor (build: Build)
      ensures this.build == build && Abs() == Start
    {
      this.build := build;
      objects, refs, next, closed := map[], map[], 0, [];
      lost, registered, freed := [], [], [];
    }

    method CloseFd(fd: int)
      modifies this
      ensures Abs() == Close(old(Abs()), fd)
    {
      if fd >= 0 {
        closed := closed + [fd];
      }
    }

    method RegisterHandleLocked(p: nat)
      modifies this
      ensures Abs() == Register(old(Abs()), p)
    {
      if p !in refs {
        refs := refs[p := 1];
        registered := registered + [p];
      }
    }

    method NewPrivateHandle(p: nat, has: Answer, client: bool)
      requires p !in objects
      modifies this
      ensures Abs() == NewHandle(old(Abs()), p, has, client)
    {
      var fd: int, meta: int := -1, -1;
      if has.main {
        fd := next;
        next := next + 1;
      }
      if has.meta {
        meta := next;
        next := next + 1;
      }
      objects := objects[p := Handle(fd, meta, client)];
    }

    /** Whether `dup` succeeds. */
    predicate Dup(fd: int, answer: bool)
      reads this
    {
      fd >= 0 && fd !in closed && answer
    }

    method AllocateBuffer(p: nat, alloc: Answer) returns (ok: bool)
      requires p !in objects
      modifies this
      ensures (Abs(), ok) == Apply(build, old(Abs()), Allocate(p, alloc))
    {
      if !alloc.main {
        return false;
      }
      if !alloc.meta {
        lost := lost + [next];
        next := next + 1;
        return false;
      }
      NewPrivateHandle(p, alloc, false);
      RegisterHandleLocked(p);
      ok := true;
    }

    method CreateSharedHandle(src: nat, p: nat, dup: Answer)
      requires p !in objects && src in objects
      modifies this
      ensures (Abs(), true) == Apply(build, old(Abs()), Share(src, p, dup))
    {
      var fd, meta := Dup(objects[src].fd, dup.main), Dup(objects[src].meta, dup.meta);
      NewPrivateHandle(p, Answer(fd, meta), false);
      RegisterHandleLocked(p);
    }

    method FreeBuffer(p: nat, unmap: Answer) returns (ok: bool)
      modifies this
      ensures Abs() == FreeStep(old(Abs()), p, unmap)
      ensures ok == (p in old(objects) && unmap.main && (old(objects)[p].meta >= 0 ==> unmap.meta))
    {
      if p !in objects {
        return false;
      }
      freed := freed + [p];
      var h := objects[p];
      CloseFd(h.fd);
      if !unmap.main {
        return false;
      }
      if h.meta >= 0 {
        CloseFd(h.meta);
        if !unmap.meta {
          return false;
        }
      }
      objects := objects[p := h.(fd := -1, meta := -1)];
      if !h.client {
        objects := objects - {p};
      }
      ok := true;
    }

    /** `IonAlloc::ImportBuffer`: a negative result stands for a failure. */
    method AllocatorImport(fd: int, answer: bool) returns (ion: int)
      ensures ion >= 0 <==> if build.Libion? then fd >= 0 else Open(Abs(), fd) && answer
    {
      match build
      case Libion => ion := fd;
      case Legacy => ion := if fd >= 0 && fd !in closed && answer then 0 else -1;
    }

    method ImportHandleLocked(p: nat, ion: Answer) returns (ok: bool)
      modifies this
      ensures (Abs(), ok) == ImportHandle(build, old(Abs()), p, ion)
    {
      if p !in objects {
        return false;
      }
      var h := objects[p];
      var main := AllocatorImport(h.fd, ion.main);
      if main < 0 {
        return false;
      }
      if h.meta >= 0 {
        var meta := AllocatorImport(h.meta, ion.meta);
        if meta < 0 {
          CloseFd(h.fd);
          CloseFd(h.meta);
          objects := objects[p := h.(fd := -1, meta := -1)];
          return false;
        }
      }
      RegisterHandleLocked(p);
      ok := true;
    }

    method RetainBuffer(p: nat, ion: Answer) returns (ok: bool)
      modifies this
      ensures (Abs(), ok) == RetainStep(build, old(Abs()), p, ion)
    {
      if p in refs {
        refs := refs[p := refs[p] + 1];
        ok := true;
      } else {
        ok := ImportHandleLocked(p, ion);
      }
    }

    method ReleaseBuffer(p: nat, unmap: Answer) returns (ok: bool)
      modifies this
      ensures (Abs(), ok) == ReleaseStep(old(Abs()), p, unmap)
    {
      if p !in refs {
        return false;
      }
      var count := refs[p] - 1;
      if count == 0 {
        refs := refs - {p};
        var _ := FreeBuffer(p, unmap);
      } else {
        refs := refs[p := count];
      }
      ok := true;
    }

    method NativeHandleClone(src: nat, p: nat, dup: Answer) returns (ok: bool)
      requires p !in objects
      modifies this
      ensures (Abs(), ok) == CloneStep(old(Abs()), src, p, dup)
    {
      if src !in objects || !Dup(objects[src].fd, dup.main) {
        return false;
      }
      if !Dup(objects[src].meta, dup.meta) {
        var fd := next;
        next := next + 1;
        CloseFd(fd);
        return false;
      }
      NewPrivateHandle(p, Answer(true, true), objects[src].client);
      ok := true;
    }

    /** `GrallocImpl::ImportBuffer`: clone, retain, and on failure close and delete the clone. */
    method ImportBuffer(src: nat, p: nat, dup: Answer, ion: Answer) returns (ok: bool)
      requires p !in objects
      modifies this
      ensures (Abs(), ok) == Apply(build, old(Abs()), Import(src, p, dup, ion))
    {
      ok := NativeHandleClone(src, p, dup);
      if !ok {
        return;
      }
      ok := RetainBuffer(p, ion);
      if !ok && p in objects {
        var h := objects[p];
        CloseFd(h.fd);
        CloseFd(h.meta);
        objects := objects - {p};
      }
    }
  }
}
