/** The blitter's request list: requests are collected in ten slots and submitted to the kernel in
    batches, from several entry points. */
module CopybitBatch {
  import opened Align
  import opened CopybitRects

  const MAX_DIMENSION := 4096
  const MAX_REQUESTS := 10
  const MDP_MAX_FENCE_FD := 32
  const EINVAL := 22

  datatype Req = Blit(dstRect: MdpRect, srcRect: MdpRect) | Fill(rect: Rect, color: nat)

  type Errno = n: int | n > 0 witness 1

  /** The kernel's answer to one `MSMFB_ASYNC_BLIT`: it takes the batch and issues a release fence, or
      refuses it with an error. */
  datatype Reply = Taken(fence: nat) | Refused(errno: Errno)

  /** One `ioctl`. `kept` says that the requests stayed in the list after a refusal. */
  datatype Submission = Submission(batch: seq<Req>, fences: seq<int>, ok: bool, kept: bool)

  /** Acquire fences that left the list together: with an `ioctl`, or without one. */
  datatype Group = Sent(fds: seq<int>) | Forgotten(fds: seq<int>)

  /** `accepted` lists every request ever put in the list, `log` every `ioctl`, `issued` the release
      fences received and `gone` those closed or handed out, `synced` the acquire fences stored and
      `departed` those that have left since. */
  datatype Context = Context(pending: seq<Req>, fences: seq<int>, relFence: int,
                             accepted: seq<Req>, log: seq<Submission>, issued: seq<int>, gone: seq<int>,
                             synced: seq<int>, departed: seq<Group>)

  const OPENED := Context([], [], -1, [], [], [], [], [], [])

  // ----- operations on values

  /** `msm_copybit`, leaving the list as it is. */
  function Submit(kernel: nat -> Reply, s: Context, keepIfRefused: bool): (Context, int) {
    var gone := if s.relFence != -1 then s.gone + [s.relFence] else s.gone;
    match kernel(|s.log|)
    case Taken(f) =>
      (s.(relFence := f, issued := s.issued + [f], gone := gone,
          log := s.log + [Submission(s.pending, s.fences, true, false)]), 0)
    case Refused(errno) =>
      (s.(relFence := -1, gone := gone,
          log := s.log + [Submission(s.pending, s.fences, false, keepIfRefused)]), 0 - errno as int)
  }

  /** Submits and empties the list, whatever the kernel says. */
  function SubmitAndClear(kernel: nat -> Reply, s: Context): (Context, int) {
    var (t, status) := Submit(kernel, s, false);
    (t.(pending := [], fences := [], departed := s.departed + [Sent(s.fences)]), status)
  }

  /** Puts a request in the list and submits the list when it is full. */
  function Push(kernel: nat -> Reply, s: Context, r: Req): (Context, int) {
    var t := s.(pending := s.pending + [r], accepted := s.accepted + [r]);
    if |t.pending| == MAX_REQUESTS then SubmitAndClear(kernel, t) else (t, 0)
  }

  function SetSyncStep(kernel: nat -> Reply, s: Context, fd: int): (Context, int) {
    if fd == -1 then (s, 0)
    else if |s.fences| < MDP_MAX_FENCE_FD - 1 then (s.(fences := s.fences + [fd], synced := s.synced + [fd]), 0)
    else
      var (t, status) := Submit(kernel, s, true);
      if status < 0 then (t, -EINVAL) else 
        (t.(pending := [], fences := [fd], synced := t.synced + [fd], departed := s.departed + [Sent(s.fences)]), 0)
  }

  function FlushStep(kernel: nat -> Reply, s: Context): (Context, int, int) {
    var (t, status) :=
      if s.pending != [] then SubmitAndClear(kernel, s)
      else (s.(fences := [], departed := s.departed + [Forgotten(s.fences)]), -EINVAL);
    (t.(relFence := -1, gone := if t.relFence != -1 then t.gone + [t.relFence] else t.gone), status, t.relFence)
  }

  function FillStep(kernel: nat -> Reply, s: Context, w: nat, h: nat, rect: Rect, color: nat): (Context, int) {
    if w > MAX_DIMENSION || h > MAX_DIMENSION then (s, -EINVAL)
    else if rect.l < 0 || Unsigned(rect.r - rect.l) > w || rect.t < 0 || Unsigned(rect.b - rect.t) > h then (s, -EINVAL)
    else Push(kernel, s, Fill(rect, color))
  }

  /** How the source image of a stretch is used: as it is, or converted from YV12 to a temporary
      buffer first. */
  datatype Source = Direct | Converted | ConversionFails

  datatype Stretch = Stretch(f: Transform, dstW: nat, dstH: nat, srcW: nat, srcH: nat,
                             dst: Rect, src: Rect, alphaUnsupported: bool, source: Source)
  {
    predicate Rejected() {
      || alphaUnsupported
      || src.l < 0 || Unsigned(src.r) > srcW || src.t < 0 || Unsigned(src.b) > srcH
      || srcW > MAX_DIMENSION || srcH > MAX_DIMENSION
      || dstW > MAX_DIMENSION || dstH > MAX_DIMENSION
      || source == ConversionFails
    }

    function Bounds(): Rect {
      Rect(0, 0, dstW, dstH)
    }
  }

  /** The request made for one clip of a region, if any. */
  function RequestFor(a: Stretch, clip: Rect): seq<Req>
    requires Sized(a.dst)
  {
    var c := Intersect(Intersect(a.Bounds(), clip), a.dst);
    if !c.NonEmpty() then []
    else
      var s := SourceRect(a.f, a.dst, a.src, c);
      if s.w <= 0 || s.h <= 0 then []
      else [Blit(MdpRect(Unsigned(c.l), Unsigned(c.t), c.r - c.l, c.b - c.t), s)]
  }

  /** Every request a region asks for. */
  function Requests(a: Stretch, clips: seq<Rect>): seq<Req>
    requires Sized(a.dst)
  {
    if clips == [] then [] else RequestFor(a, clips[0]) + Requests(a, clips[1..])
  }

  lemma SkippedOrFirst(a: Stretch, clip: Rect, rest: seq<Rect>)
    requires Sized(a.dst) && rest != [] && rest[0] == clip
    ensures RequestFor(a, clip) == [] ==> Requests(a, rest) == Requests(a, rest[1..])
    ensures RequestFor(a, clip) != [] ==> Requests(a, rest) == [RequestFor(a, clip)[0]] + Requests(a, rest[1..])
  {
  }

  /** Puts requests in the list until one submission is refused. */
  function PushAll(kernel: nat -> Reply, s: Context, rs: seq<Req>): (Context, int)
    decreases rs
  {
    if rs == [] then (s, 0)
    else
      var (t, status) := Push(kernel, s, rs[0]);
      if status != 0 then (t, status) else PushAll(kernel, t, rs[1..])
  }

  /** The end of a stretch: a converted image must be submitted before its buffer is freed. */
  function Finish(kernel: nat -> Reply, t: Context, status: int, converted: bool): (Context, int) {
    if converted && t.pending != [] then SubmitAndClear(kernel, t) else (t, status)
  }

  function StretchStep(kernel: nat -> Reply, s: Context, a: Stretch, clips: seq<Rect>): (Context, int)
    requires Sized(a.dst)
  {
    if a.Rejected() then (s, -EINVAL)
    else
      var (t, status) := PushAll(kernel, s, Requests(a, clips));
      Finish(kernel, t, status, a.source == Converted)
  }

  // ----- runs

  datatype Op =
    | SetSync(fd: int)
    | DoStretch(a: Stretch, clips: seq<Rect>)
    | FillColor(w: nat, h: nat, rect: Rect, color: nat)
    | Flush

  predicate Callable(op: Op) {
    op.DoStretch? ==> Sized(op.a.dst)
  }

  function Apply(kernel: nat -> Reply, s: Context, op: Op): Context
    requires Callable(op)
  {
    match op
    case SetSync(fd) => SetSyncStep(kernel, s, fd).0
    case DoStretch(a, clips) => StretchStep(kernel, s, a, clips).0
    case FillColor(w, h, rect, color) => FillStep(kernel, s, w, h, rect, color).0
    case Flush => FlushStep(kernel, s).0
  }

  function After(kernel: nat -> Reply, ops: seq<Op>): Context
    requires forall op | op in ops :: Callable(op)
  {
    if ops == [] then OPENED
    else Apply(kernel, After(kernel, ops[..|ops| - 1]), ops[|ops| - 1])
  }

  // ----- what every run keeps

  /** The requests that have left the list, in order. */
  function Left(log: seq<Submission>): seq<Req> {
    if log == [] then []
    else
      var e := log[|log| - 1];
      Left(log[..|log| - 1]) + if e.kept then [] else e.batch
  }

  /** The acquire fences that have left with an `ioctl`, in order. */
  function FencesLeft(log: seq<Submission>): seq<int> {
    if log == [] then []
    else
      var e := log[|log| - 1];
      FencesLeft(log[..|log| - 1]) + if e.kept then [] else e.fences
  }

  function AllDeparted(gs: seq<Group>): seq<int> {
    if gs == [] then [] else AllDeparted(gs[..|gs| - 1]) + gs[|gs| - 1].fds
  }

  function SentFences(gs: seq<Group>): seq<int> {
    if gs == [] then []
    else
      var g := gs[|gs| - 1];
      SentFences(gs[..|gs| - 1]) + if g.Sent? then g.fds else []
  }

  function ForgottenFences(gs: seq<Group>): seq<int> {
    if gs == [] then []
    else
      var g := gs[|gs| - 1];
      ForgottenFences(gs[..|gs| - 1]) + if g.Forgotten? then g.fds else []
  }

  lemma GroupAdded(gs: seq<Group>, g: Group)
    ensures AllDeparted(gs + [g]) == AllDeparted(gs) + g.fds
    ensures SentFences(gs + [g]) == SentFences(gs) + if g.Sent? then g.fds else []
    ensures ForgottenFences(gs + [g]) == ForgottenFences(gs) + if g.Forgotten? then g.fds else []
  {
    assert (gs + [g])[..|gs|] == gs;
  }

  predicate Between(s: Context) {
    && |s.pending| < MAX_REQUESTS
    && |s.fences| < MDP_MAX_FENCE_FD
  }

  predicate RequestsConserved(s: Context) {
    Left(s.log) + s.pending == s.accepted
  }

  /** The fences that have left followed by those pending are the ones stored, in order, and those that left with an
      `ioctl` are the ones its batches carried. */
  predicate FencesConserved(s: Context) {
    && AllDeparted(s.departed) + s.fences == s.synced
    && SentFences(s.departed) == FencesLeft(s.log)
  }

  predicate ReleaseFencesConserved(s: Context) {
    s.issued == s.gone + if s.relFence != -1 then [s.relFence] else []
  }

  predicate Inv(s: Context) {
    Between(s) && RequestsConserved(s) && FencesConserved(s) && ReleaseFencesConserved(s)
  }

  /** What one `ioctl` does to the ledgers. */
  lemma SubmitKeeps(kernel: nat -> Reply, s: Context, keep: bool)
    requires RequestsConserved(s) && FencesConserved(s) && ReleaseFencesConserved(s)
    ensures var (t, status) := Submit(kernel, s, keep);
            && ReleaseFencesConserved(t)
            && t.pending == s.pending && t.fences == s.fences && t.accepted == s.accepted
            && t.synced == s.synced && t.departed == s.departed
            && (!keep || status == 0 ==>
                  Left(t.log) == t.accepted && FencesLeft(t.log) == SentFences(s.departed) + s.fences)
            && (keep && status != 0 ==> RequestsConserved(t) && FencesConserved(t))
  {
    var (t, status) := Submit(kernel, s, keep);
    var e := Submission(s.pending, s.fences, status == 0, keep && status != 0);
    SubmitLogs(kernel, s, keep);
    LeftGrows(s.log, e);
    assert Left(s.log) + [] == Left(s.log) && FencesLeft(s.log) + [] == FencesLeft(s.log);
  }

  /** An `ioctl` adds one entry to the log and closes or issues a release fence. */
  lemma SubmitLogs(kernel: nat -> Reply, s: Context, keep: bool)
    requires ReleaseFencesConserved(s)
    ensures var (t, status) := Submit(kernel, s, keep);
            && t.log == s.log + [Submission(s.pending, s.fences, status == 0, keep && status != 0)]
            && ReleaseFencesConserved(t)
  {
  }

  lemma LeftGrows(log: seq<Submission>, e: Submission)
    ensures Left(log + [e]) == Left(log) + if e.kept then [] else e.batch
    ensures FencesLeft(log + [e]) == FencesLeft(log) + if e.kept then [] else e.fences
  {
    var now := log + [e];
    assert now[..|now| - 1] == log && now[|now| - 1] == e;
  }

  /** The list's fences leave with the `ioctl` just made. */
  lemma FencesSent(s: Context, t: Context, added: seq<int>)
    requires FencesConserved(s) && t.fences == added && t.synced == s.synced + added
    requires t.departed == s.departed + [Sent(s.fences)] && FencesLeft(t.log) == SentFences(s.departed) + s.fences
    ensures FencesConserved(t)
  {
    GroupAdded(s.departed, Sent(s.fences));
  }

  lemma SubmitAndClearKeeps(kernel: nat -> Reply, s: Context)
    requires RequestsConserved(s) && FencesConserved(s) && ReleaseFencesConserved(s)
    ensures Inv(SubmitAndClear(kernel, s).0)
  {
    SubmitKeeps(kernel, s, false);
    Emptied(s, Submit(kernel, s, false).0, SubmitAndClear(kernel, s).0);
  }

  /** `t` is `s` after an `ioctl`, `u` the same with the list emptied. */
  lemma Emptied(s: Context, t: Context, u: Context)
    requires RequestsConserved(s) && FencesConserved(s) && ReleaseFencesConserved(t)
    requires Left(t.log) == t.accepted && t.synced == s.synced
    requires FencesLeft(t.log) == SentFences(s.departed) + s.fences
    requires u == t.(pending := [], fences := [], departed := s.departed + [Sent(s.fences)])
    ensures Inv(u)
  {
    assert Left(u.log) + [] == Left(u.log) && s.synced + [] == s.synced;
    FencesSent(s, u, []);
  }

  lemma PushKeeps(kernel: nat -> Reply, s: Context, r: Req)
    requires Inv(s)
    ensures Inv(Push(kernel, s, r).0)
  {
    var t := s.(pending := s.pending + [r], accepted := s.accepted + [r]);
    assert Left(s.log) + (s.pending + [r]) == (Left(s.log) + s.pending) + [r];
    if |t.pending| == MAX_REQUESTS {
      SubmitAndClearKeeps(kernel, t);
    }
  }

  lemma {:induction false} PushAllKeeps(kernel: nat -> Reply, s: Context, rs: seq<Req>)
    requires Inv(s)
    ensures Inv(PushAll(kernel, s, rs).0)
    decreases rs
  {
    if rs != [] {
      PushKeeps(kernel, s, rs[0]);
      PushAllKeeps(kernel, Push(kernel, s, rs[0]).0, rs[1..]);
    }
  }

  lemma StretchKeeps(kernel: nat -> Reply, s: Context, rs: seq<Req>, converted: bool)
    requires Inv(s)
    ensures var (t, status) := PushAll(kernel, s, rs); Inv(Finish(kernel, t, status, converted).0)
  {
    PushAllKeeps(kernel, s, rs);
    SubmitAndClearKeeps(kernel, PushAll(kernel, s, rs).0);
  }

  lemma SetSyncKeeps(kernel: nat -> Reply, s: Context, fd: int)
    requires Inv(s)
    ensures Inv(SetSyncStep(kernel, s, fd).0)
  {
    if |s.fences| < MDP_MAX_FENCE_FD - 1 {
      assert AllDeparted(s.departed) + (s.fences + [fd]) == AllDeparted(s.departed) + s.fences + [fd];
    } else if fd != -1 {
      SubmitKeeps(kernel, s, true);
      var (t, status) := Submit(kernel, s, true);
      assert Left(t.log) + [] == Left(t.log);
      if status == 0 {
        FencesSent(s, SetSyncStep(kernel, s, fd).0, [fd]);
      }
    }
  }

  lemma FlushKeeps(kernel: nat -> Reply, s: Context)
    requires Inv(s)
    ensures Inv(FlushStep(kernel, s).0)
  {
    if s.pending != [] {
      SubmitAndClearKeeps(kernel, s);
    } else {
      GroupAdded(s.departed, Forgotten(s.fences));
    }
  }

  lemma ApplyKeeps(kernel: nat -> Reply, s: Context, op: Op)
    requires Inv(s) && Callable(op)
    ensures Inv(Apply(kernel, s, op))
  {
    match op
    case SetSync(fd) => SetSyncKeeps(kernel, s, fd);
    case DoStretch(a, clips) => StretchKeeps(kernel, s, Requests(a, clips), a.source == Converted);
    case FillColor(w, h, rect, color) => PushKeeps(kernel, s, Fill(rect, color));
    case Flush => FlushKeeps(kernel, s);
  }

  /** In every run, whatever the kernel answers: at most nine requests and fewer acquire fences than the
      limit are pending between calls; the requests that left the list followed by those pending are the
      accepted ones in order, and so for the acquire fences; every release fence is accounted for. */
  lemma {:induction false} RunsKeepInv(kernel: nat -> Reply, ops: seq<Op>)
    requires forall op | op in ops :: Callable(op)
    ensures Inv(After(kernel, ops))
  {
    if ops != [] {
      var n := |ops| - 1;
      RunsKeepInv(kernel, ops[..n]);
      ApplyKeeps(kernel, After(kernel, ops[..n]), ops[n]);
    }
  }

  // ----- runs whose every ioctl succeeds

  ghost predicate AlwaysTaken(kernel: nat -> Reply) {
    forall n: nat :: kernel(n).Taken?
  }

  predicate AllOk(log: seq<Submission>) {
    forall i | 0 <= i < |log| :: log[i].ok && !log[i].kept
  }

  function Batches(log: seq<Submission>): seq<Req> {
    if log == [] then [] else Batches(log[..|log| - 1]) + log[|log| - 1].batch
  }

  lemma {:induction false} LeftIsBatches(log: seq<Submission>)
    requires AllOk(log)
    ensures Left(log) == Batches(log)
  {
    if log != [] {
      LeftIsBatches(log[..|log| - 1]);
      assert !log[|log| - 1].kept;
    }
  }

  lemma {:induction false} PushAllStaysOk(kernel: nat -> Reply, s: Context, rs: seq<Req>)
    requires AlwaysTaken(kernel) && AllOk(s.log)
    ensures AllOk(PushAll(kernel, s, rs).0.log) && PushAll(kernel, s, rs).1 == 0
    ensures PushAll(kernel, s, rs).0.accepted == s.accepted + rs
    decreases rs
  {
    if rs == [] {
      assert s.accepted + rs == s.accepted;
    } else {
      var t := Push(kernel, s, rs[0]).0;
      PushAllStaysOk(kernel, t, rs[1..]);
      assert s.accepted + [rs[0]] + rs[1..] == s.accepted + rs;
    }
  }

  /** What an operation asks for. */
  function Asked(op: Op): seq<Req>
    requires Callable(op)
  {
    match op
    case DoStretch(a, clips) => if a.Rejected() then [] else Requests(a, clips)
    case FillColor(w, h, rect, color) =>
      if w > MAX_DIMENSION || h > MAX_DIMENSION || rect.l < 0 || Unsigned(rect.r - rect.l) > w
         || rect.t < 0 || Unsigned(rect.b - rect.t) > h then []
      else [Fill(rect, color)]
    case _ => []
  }

  function AllAsked(ops: seq<Op>): seq<Req>
    requires forall op | op in ops :: Callable(op)
  {
    if ops == [] then [] else AllAsked(ops[..|ops| - 1]) + Asked(ops[|ops| - 1])
  }

  lemma ApplyStaysOk(kernel: nat -> Reply, s: Context, op: Op)
    requires AlwaysTaken(kernel) && AllOk(s.log) && Callable(op)
    ensures AllOk(Apply(kernel, s, op).log)
    ensures Apply(kernel, s, op).accepted == s.accepted + Asked(op)
  {
    assert s.accepted + [] == s.accepted;
    if op.DoStretch? {
      PushAllStaysOk(kernel, s, Requests(op.a, op.clips));
    }
  }

  /** When every `ioctl` succeeds, the submitted batches followed by the pending list are exactly the
      requests asked for, in order: none is lost, repeated or reordered. */
  lemma {:induction false} NothingLost(kernel: nat -> Reply, ops: seq<Op>)
    requires AlwaysTaken(kernel)
    requires forall op | op in ops :: Callable(op)
    ensures var s := After(kernel, ops);
            AllOk(s.log) && Batches(s.log) + s.pending == AllAsked(ops) == s.accepted
  {
    RunsKeepInv(kernel, ops);
    if ops != [] {
      var n := |ops| - 1;
      NothingLost(kernel, ops[..n]);
      ApplyStaysOk(kernel, After(kernel, ops[..n]), ops[n]);
    }
    LeftIsBatches(After(kernel, ops).log);
  }

  // ----- fences that no ioctl carries

  /** An operation that drops the acquire fences it finds: a flush with nothing to submit. */
  predicate Drops(s: Context, op: Op) {
    op.Flush? && s.pending == [] && s.fences != []
  }

  lemma {:induction false} PushAllForgetsNothing(kernel: nat -> Reply, s: Context, rs: seq<Req>)
    ensures ForgottenFences(PushAll(kernel, s, rs).0.departed) == ForgottenFences(s.departed)
    decreases rs
  {
    if rs != [] {
      PushForgetsNothing(kernel, s, rs[0]);
      PushAllForgetsNothing(kernel, Push(kernel, s, rs[0]).0, rs[1..]);
    }
  }

  lemma ClearForgetsNothing(kernel: nat -> Reply, s: Context)
    ensures ForgottenFences(SubmitAndClear(kernel, s).0.departed) == ForgottenFences(s.departed)
  {
    GroupAdded(s.departed, Sent(s.fences));
  }

  lemma PushForgetsNothing(kernel: nat -> Reply, s: Context, r: Req)
    ensures ForgottenFences(Push(kernel, s, r).0.departed) == ForgottenFences(s.departed)
  {
    ClearForgetsNothing(kernel, s.(pending := s.pending + [r], accepted := s.accepted + [r]));
  }

  lemma StretchForgetsNothing(kernel: nat -> Reply, s: Context, rs: seq<Req>, converted: bool)
    ensures var (t, status) := PushAll(kernel, s, rs);
            ForgottenFences(Finish(kernel, t, status, converted).0.departed) == ForgottenFences(s.departed)
  {
    PushAllForgetsNothing(kernel, s, rs);
    ClearForgetsNothing(kernel, PushAll(kernel, s, rs).0);
  }

  lemma FlushForgets(kernel: nat -> Reply, s: Context)
    ensures ForgottenFences(FlushStep(kernel, s).0.departed) ==
            ForgottenFences(s.departed) + if s.pending == [] then s.fences else []
  {
    ClearForgetsNothing(kernel, s);
    GroupAdded(s.departed, Forgotten(s.fences));
  }

  /** The fences forgotten grow exactly by what such a flush finds. */
  lemma ApplyForgets(kernel: nat -> Reply, s: Context, op: Op)
    requires Callable(op)
    ensures ForgottenFences(Apply(kernel, s, op).departed) ==
            ForgottenFences(s.departed) + if Drops(s, op) then s.fences else []
  {
    match op
    case SetSync(fd) => GroupAdded(s.departed, Sent(s.fences));
    case DoStretch(a, clips) => StretchForgetsNothing(kernel, s, Requests(a, clips), a.source == Converted);
    case FillColor(w, h, rect, color) => PushForgetsNothing(kernel, s, Fill(rect, color));
    case Flush => FlushForgets(kernel, s);
  }

  /** Step `n` of a run is such a flush. */
  ghost predicate DropsAt(kernel: nat -> Reply, ops: seq<Op>, n: nat)
    requires n < |ops| && forall op | op in ops :: Callable(op)
  {
    Drops(After(kernel, ops[..n]), ops[n])
  }

  /** In a run every acquire fence leaves with an `ioctl` or is still pending, in the order stored, exactly when no
      flush finds fences without requests. */
  lemma {:induction false} NoneForgottenIff(kernel: nat -> Reply, ops: seq<Op>)
    requires forall op | op in ops :: Callable(op)
    ensures ForgottenFences(After(kernel, ops).departed) == []
            <==> forall n | 0 <= n < |ops| :: !DropsAt(kernel, ops, n)
    decreases |ops|
  {
    if ops != [] {
      var n := |ops| - 1;
      var before := ops[..n];
      NoneForgottenIff(kernel, before);
      LastForgets(kernel, ops, before, n);
      forall i | 0 <= i < n
        ensures DropsAt(kernel, ops, i) <==> DropsAt(kernel, before, i)
      {
        SameDrops(kernel, ops, before, n, i);
      }
    }
  }

  lemma SameDrops(kernel: nat -> Reply, ops: seq<Op>, before: seq<Op>, n: nat, i: nat)
    requires i < n < |ops| && before == ops[..n] && (forall op | op in ops :: Callable(op))
    requires forall op | op in before :: Callable(op)
    ensures DropsAt(kernel, ops, i) <==> DropsAt(kernel, before, i)
  {
    assert before[..i] == ops[..i];
  }

  lemma LastForgets(kernel: nat -> Reply, ops: seq<Op>, before: seq<Op>, n: nat)
    requires |ops| == n + 1 && before == ops[..n] && (forall op | op in ops :: Callable(op))
    requires forall op | op in before :: Callable(op)
    ensures ForgottenFences(After(kernel, ops).departed) == [] <==>
            ForgottenFences(After(kernel, before).departed) == [] && !DropsAt(kernel, ops, n)
  {
    ApplyForgets(kernel, After(kernel, before), ops[n]);
  }

  /** Storing a fence and flushing at once forgets it. */
  lemma FlushDropsFence(kernel: nat -> Reply, fd: int)
    requires fd != -1
    ensures var s := After(kernel, [SetSync(fd), Flush]);
            ForgottenFences(s.departed) == [fd] && s.synced == [fd] && s.log == []
  {
    var ops := [SetSync(fd), Flush];
    var first, none: seq<Op> := ops[..1], [];
    assert first[..0] == none && first[0] == SetSync(fd) && After(kernel, none) == OPENED;
    var s := After(kernel, first);
    assert s == Apply(kernel, OPENED, SetSync(fd)) == OPENED.(fences := [fd], synced := [fd]);
    FlushForgets(kernel, s);
  }

  // ----- converted images

  /** A call adds some of the requests it is given to the list, from the first on. */
  ghost predicate Adds(s: Context, t: Context, rs: seq<Req>, all: bool) {
    && s.accepted <= t.accepted <= s.accepted + rs && (all ==> t.accepted == s.accepted + rs)
    && |t.pending| <= |s.pending| + (|t.accepted| - |s.accepted|)
  }

  lemma PushAdds(kernel: nat -> Reply, s: Context, r: Req)
    ensures Adds(s, Push(kernel, s, r).0, [r], true)
  {
  }

  lemma AddsMore(s: Context, t: Context, u: Context, r: Req, rest: seq<Req>, all: bool)
    requires Adds(s, t, [r], true) && Adds(t, u, rest, all)
    ensures Adds(s, u, [r] + rest, all)
  {
    assert s.accepted + ([r] + rest) == s.accepted + [r] + rest;
  }

  lemma {:induction false} PushAllAdds(kernel: nat -> Reply, s: Context, rs: seq<Req>)
    ensures Adds(s, PushAll(kernel, s, rs).0, rs, PushAll(kernel, s, rs).1 == 0)
    decreases rs
  {
    if rs == [] {
      assert s.accepted + rs == s.accepted;
    } else {
      var (t, status) := Push(kernel, s, rs[0]);
      PushAdds(kernel, s, rs[0]);
      assert rs == [rs[0]] + rs[1..];
      if status == 0 {
        PushAllAdds(kernel, t, rs[1..]);
        AddsMore(s, t, PushAll(kernel, t, rs[1..]).0, rs[0], rs[1..], PushAll(kernel, t, rs[1..]).1 == 0);
      } else {
        assert s.accepted + [rs[0]] <= s.accepted + rs;
      }
    }
  }

  /** When a converted stretch returns, and its buffer is freed, nothing is pending: the requests it put in the list,
      from the region's first on and all of them unless a submission was refused, lie in batches already submitted. */
  lemma ConvertedIsSubmitted(kernel: nat -> Reply, s: Context, a: Stretch, clips: seq<Rect>)
    requires Inv(s) && Sized(a.dst) && !a.Rejected() && a.source == Converted
    ensures var (t, status) := StretchStep(kernel, s, a, clips);
            && t.pending == [] && Left(t.log) == t.accepted
            && Adds(s, t, Requests(a, clips), AlwaysTaken(kernel))
  {
    var rs := Requests(a, clips);
    var (t, status) := PushAll(kernel, s, rs);
    PushAllAdds(kernel, s, rs);
    StretchKeeps(kernel, s, rs, true);
    if AlwaysTaken(kernel) {
      PushAllTaken(kernel, s, rs);
    }
    var u := StretchStep(kernel, s, a, clips).0;
    assert u.accepted == t.accepted && u.pending == [];
    assert Left(u.log) + [] == Left(u.log);
  }

  lemma {:induction false} PushAllTaken(kernel: nat -> Reply, s: Context, rs: seq<Req>)
    requires AlwaysTaken(kernel)
    ensures PushAll(kernel, s, rs).1 == 0
    decreases rs
  {
    if rs != [] {
      PushAllTaken(kernel, Push(kernel, s, rs[0]).0, rs[1..]);
    }
  }

  /** The call reads from a temporary buffer that is freed when it returns. */
  predicate FromConverted(op: Op) {
    op.DoStretch? && !op.a.Rejected() && op.a.source == Converted
  }

  /** How many requests a call has put in the list. */
  function Added(s: Context, t: Context): nat {
    if |t.accepted| >= |s.accepted| then |t.accepted| - |s.accepted| else 0
  }

  /** For every request put in the list, in order, whether it reads from such a buffer. */
  function Origins(kernel: nat -> Reply, ops: seq<Op>): seq<bool>
    requires forall op | op in ops :: Callable(op)
  {
    if ops == [] then []
    else
      var before, op := ops[..|ops| - 1], ops[|ops| - 1];
      Origins(kernel, before)
      + seq(Added(After(kernel, before), After(kernel, ops)), i requires i >= 0 => FromConverted(op))
  }

  /** No call adds more to the pending requests than it puts in the list, and a converted stretch leaves none. */
  lemma ApplyAdds(kernel: nat -> Reply, s: Context, op: Op)
    requires Inv(s) && Callable(op)
    ensures var t := Apply(kernel, s, op);
            && |t.accepted| >= |s.accepted| && |t.pending| <= |s.pending| + (|t.accepted| - |s.accepted|)
            && (FromConverted(op) ==> t.pending == [])
  {
    match op
    case DoStretch(a, clips) =>
      PushAllAdds(kernel, s, Requests(a, clips));
      if FromConverted(op) {
        ConvertedIsSubmitted(kernel, s, a, clips);
      }
    case FillColor(_, _, rect, color) => PushAdds(kernel, s, Fill(rect, color));
    case _ =>
  }

  /** In every run, whatever the kernel answers, no pending request reads from a buffer that has been freed. */
  lemma {:induction false} PendingBuffersLive(kernel: nat -> Reply, ops: seq<Op>)
    requires forall op | op in ops :: Callable(op)
    ensures var s, origins := After(kernel, ops), Origins(kernel, ops);
            && |origins| == |s.accepted| && |s.pending| <= |s.accepted|
            && forall i | |s.accepted| - |s.pending| <= i < |s.accepted| :: !origins[i]
    decreases |ops|
  {
    if ops != [] {
      var before, op := ops[..|ops| - 1], ops[|ops| - 1];
      PendingBuffersLive(kernel, before);
      RunsKeepInv(kernel, before);
      ApplyAdds(kernel, After(kernel, before), op);
    }
  }

  // ----- what is handed out and stored

  /** A flush hands out the fence of the submission it makes, or none when the submission is refused; with nothing
      pending it hands out the fence left from the submission before. In any case the context keeps none. */
  lemma FlushHandsOut(kernel: nat -> Reply, s: Context)
    requires Inv(s)
    ensures var (t, status, fd) := FlushStep(kernel, s);
            && t.relFence == -1
            && (s.pending == [] ==> fd == s.relFence && status == -EINVAL && t.log == s.log)
            && (s.pending != [] && kernel(|s.log|).Taken? ==> fd == kernel(|s.log|).fence && status == 0)
            && (s.pending != [] && kernel(|s.log|).Refused? ==> fd == -1 && status < 0)
            && (fd != -1 ==> t.issued != [] && fd == t.issued[|t.issued| - 1] && t.gone == t.issued)
  {
    FlushKeeps(kernel, s);
    if s.relFence != -1 {
      assert s.issued[|s.issued| - 1] == s.relFence;
    }
  }

  /** The fences a run asks to store. */
  function AllSynced(ops: seq<Op>): seq<int> {
    if ops == [] then []
    else
      var op := ops[|ops| - 1];
      AllSynced(ops[..|ops| - 1]) + if op.SetSync? && op.fd != -1 then [op.fd] else []
  }

  lemma {:induction false} PushAllSynced(kernel: nat -> Reply, s: Context, rs: seq<Req>)
    ensures PushAll(kernel, s, rs).0.synced == s.synced
    decreases rs
  {
    if rs != [] {
      PushAllSynced(kernel, Push(kernel, s, rs[0]).0, rs[1..]);
    }
  }

  lemma ApplySynced(kernel: nat -> Reply, s: Context, op: Op)
    requires AlwaysTaken(kernel) && Callable(op)
    ensures Apply(kernel, s, op).synced == s.synced + if op.SetSync? && op.fd != -1 then [op.fd] else []
  {
    assert s.synced + [] == s.synced;
    if op.DoStretch? {
      PushAllSynced(kernel, s, Requests(op.a, op.clips));
    }
  }

  /** When every `ioctl` succeeds, the fences sent or forgotten followed by those pending are exactly the ones the calls
      passed in, in order. */
  lemma {:induction false} NoFenceLost(kernel: nat -> Reply, ops: seq<Op>)
    requires AlwaysTaken(kernel)
    requires forall op | op in ops :: Callable(op)
    ensures var s := After(kernel, ops);
            s.synced == AllSynced(ops) == AllDeparted(s.departed) + s.fences
    decreases |ops|
  {
    RunsKeepInv(kernel, ops);
    if ops != [] {
      NoFenceLost(kernel, ops[..|ops| - 1]);
      ApplySynced(kernel, After(kernel, ops[..|ops| - 1]), ops[|ops| - 1]);
    }
  }

  // ----- when the kernel is called

  /** Requests are submitted in tens: when every `ioctl` succeeds, pushing them makes one `ioctl` for every tenth
      request, with ten requests each, and leaves the rest pending. */
  lemma {:induction false} PushAllBatches(kernel: nat -> Reply, s: Context, rs: seq<Req>)
    requires AlwaysTaken(kernel) && |s.pending| < 10
    ensures var t := PushAll(kernel, s, rs).0;
            && |t.log| == |s.log| + (|s.pending| + |rs|) / 10 && s.log <= t.log
            && |t.pending| == (|s.pending| + |rs|) % 10
            && forall i | |s.log| <= i < |t.log| :: |t.log[i].batch| == 10
    decreases rs
  {
    if rs != [] {
      var t := Push(kernel, s, rs[0]).0;
      PushAllBatches(kernel, t, rs[1..]);
    }
  }

  /** Storing an acquire fence makes an `ioctl` exactly when 31 are stored already, with all that is pending. */
  lemma SetSyncSubmitsIff(kernel: nat -> Reply, s: Context, fd: int)
    requires Inv(s)
    ensures var t := SetSyncStep(kernel, s, fd).0;
            && (t.log != s.log <==> fd != -1 && |s.fences| == 31)
            && (t.log != s.log ==> |t.log| == |s.log| + 1 && t.log[|s.log|].batch == s.pending
                                   && t.log[|s.log|].fences == s.fences)
  {
  }

  // ----- what calls report

  /** Every `ioctl` between `s` and `t` was taken, or the last one was refused with the error reported. */
  ghost predicate Reports(kernel: nat -> Reply, s: Context, t: Context, status: int) {
    && s.log <= t.log
    && (forall i | |s.log| <= i < |t.log| - 1 :: t.log[i].ok)
    && if status == 0 then |s.log| < |t.log| ==> t.log[|t.log| - 1].ok
       else && |s.log| < |t.log| && !t.log[|t.log| - 1].ok
            && kernel(|t.log| - 1).Refused? && status == 0 - kernel(|t.log| - 1).errno as int
  }

  lemma PushReports(kernel: nat -> Reply, s: Context, r: Req)
    ensures Reports(kernel, s, Push(kernel, s, r).0, Push(kernel, s, r).1)
    ensures Push(kernel, s, r).1 != 0 ==> Push(kernel, s, r).0.pending == []
  {
  }

  lemma ReportsOn(kernel: nat -> Reply, s: Context, t: Context, u: Context, status: int)
    requires Reports(kernel, s, t, 0) && Reports(kernel, t, u, status)
    ensures Reports(kernel, s, u, status)
  {
    forall i | |s.log| <= i < |u.log| - 1
      ensures u.log[i].ok
    {
      if i < |t.log| {
        assert u.log[i] == t.log[i];
      }
    }
  }

  lemma {:induction false} PushAllReports(kernel: nat -> Reply, s: Context, rs: seq<Req>)
    ensures Reports(kernel, s, PushAll(kernel, s, rs).0, PushAll(kernel, s, rs).1)
    ensures PushAll(kernel, s, rs).1 != 0 ==> PushAll(kernel, s, rs).0.pending == []
    decreases rs
  {
    if rs != [] {
      var (t, status) := Push(kernel, s, rs[0]);
      PushReports(kernel, s, rs[0]);
      if status == 0 {
        PushAllReports(kernel, t, rs[1..]);
        ReportsOn(kernel, s, t, PushAll(kernel, t, rs[1..]).0, PushAll(kernel, t, rs[1..]).1);
      }
    }
  }

  /** A stretch that is not rejected succeeds exactly when all its submissions are taken, and otherwise reports the
      error of the one that was refused, which is its last. */
  lemma StretchReports(kernel: nat -> Reply, s: Context, a: Stretch, clips: seq<Rect>)
    requires Sized(a.dst) && !a.Rejected()
    ensures var (t, status) := StretchStep(kernel, s, a, clips); Reports(kernel, s, t, status)
  {
    var (t, status) := PushAll(kernel, s, Requests(a, clips));
    PushAllReports(kernel, s, Requests(a, clips));
    if a.source == Converted && t.pending != [] {
      var (u, last) := SubmitAndClear(kernel, t);
      assert Reports(kernel, t, u, last);
      ReportsOn(kernel, s, t, u, last);
    }
  }

  /** A stretch with an alpha the format cannot have, from outside its image, between images too large, or whose
      conversion fails, changes nothing. */
  lemma BadCallsRejected(kernel: nat -> Reply, s: Context, a: Stretch, clips: seq<Rect>)
    requires Sized(a.dst) && Coordinates(a.src)
    requires || a.alphaUnsupported || a.source == ConversionFails
             || a.src.l < 0 || a.src.t < 0 || a.src.r < 0 || a.src.b < 0 || a.src.r > a.srcW || a.src.b > a.srcH
             || a.srcW > 4096 || a.srcH > 4096 || a.dstW > 4096 || a.dstH > 4096
    ensures StretchStep(kernel, s, a, clips) == (s, -EINVAL)
  {
  }

  /** Any other stretch is not rejected. */
  lemma GoodCallsAccepted(a: Stretch)
    requires !a.alphaUnsupported && a.source != ConversionFails && a.srcW <= 4096 && a.srcH <= 4096
    requires 0 <= a.src.l && 0 <= a.src.t && 0 <= a.src.r <= a.srcW && 0 <= a.src.b <= a.srcH
    requires a.dstW <= 4096 && a.dstH <= 4096
    ensures !a.Rejected()
  {
  }

  /** A fill reports likewise, and so does storing a fence, but with one error number for all. */
  lemma OthersReport(kernel: nat -> Reply, s: Context, w: nat, h: nat, rect: Rect, color: nat, fd: int)
    requires Inv(s)
    ensures var (t, status) := FillStep(kernel, s, w, h, rect, color);
            if t.accepted == s.accepted then t == s && status == -EINVAL else Reports(kernel, s, t, status)
    ensures var (t, status) := SetSyncStep(kernel, s, fd);
            && (status == 0 <==> forall i | |s.log| <= i < |t.log| :: t.log[i].ok)
            && (status != 0 ==> status == -EINVAL && t.pending == s.pending && t.fences == s.fences)
            && (status != 0 ==> t.synced == s.synced)
  {
    PushReports(kernel, s, Fill(rect, color));
    assert s.accepted + [Fill(rect, color)] != s.accepted;
    SetSyncReports(kernel, s, fd);
  }

  lemma SetSyncReports(kernel: nat -> Reply, s: Context, fd: int)
    requires Inv(s)
    ensures var (t, status) := SetSyncStep(kernel, s, fd);
            && (status == 0 <==> forall i | |s.log| <= i < |t.log| :: t.log[i].ok)
            && (status != 0 ==> status == -EINVAL && t.pending == s.pending && t.fences == s.fences)
            && (status != 0 ==> t.synced == s.synced)
  {
    var t := SetSyncStep(kernel, s, fd).0;
    if |t.log| > |s.log| {
      assert t.log[|s.log|].ok <==> kernel(|s.log|).Taken?;
    }
  }

  // ----- what is written

  /** Every request of a stretch writes a part of the destination image that lies in the destination rectangle and in
      one of the clips, and neither side of it is empty. */
  lemma {:induction false} EmittedWritesInside(a: Stretch, clips: seq<Rect>, r: Req) returns (k: nat)
    requires Sized(a.dst) && !a.Rejected() && r in Requests(a, clips)
    ensures k < |clips| && r.Blit? && r.srcRect.w > 0 && r.srcRect.h > 0 && r.dstRect.w > 0 && r.dstRect.h > 0
    ensures forall x, y | r.dstRect.Contains(x, y) ::
              a.Bounds().Contains(x, y) && a.dst.Contains(x, y) && clips[k].Contains(x, y)
  {
    if r in RequestFor(a, clips[0]) {
      k := 0;
    } else {
      k := EmittedWritesInside(a, clips[1..], r);
      k := k + 1;
    }
  }

  /** A clip asks for nothing exactly when nothing of it is visible, or nothing of the source is left to show there. */
  lemma SkippedIff(a: Stretch, clip: Rect)
    requires Sized(a.dst)
    ensures var c := Intersect(Intersect(a.Bounds(), clip), a.dst);
            && |RequestFor(a, clip)| <= 1
            && (RequestFor(a, clip) == []
                <==> !c.NonEmpty() || var r := SourceRect(a.f, a.dst, a.src, c); r.w == 0 || r.h == 0)
  {
  }

  /** A fill that is not rejected is upright, and stays inside the image if and only if its far edges do, which nothing
      tests. */
  lemma FillInsideIff(kernel: nat -> Reply, s: Context, w: nat, h: nat, rect: Rect, color: nat)
    requires Inv(s) && Coordinates(rect) && Int32(rect.r - rect.l) && Int32(rect.b - rect.t)
    ensures var t := FillStep(kernel, s, w, h, rect, color).0;
            && (t.accepted == s.accepted || t.accepted == s.accepted + [Fill(rect, color)])
            && (t.accepted != s.accepted ==>
                  Upright(rect) && (rect.Within(Rect(0, 0, w, h)) <==> rect.r <= w && rect.b <= h))
            && (rect.Within(Rect(0, 0, w, h)) && Upright(rect) && w <= MAX_DIMENSION && h <= MAX_DIMENSION
                ==> t.accepted == s.accepted + [Fill(rect, color)])
  {
    assert s.accepted + [Fill(rect, color)] != s.accepted;
  }

  /** Columns 5 to 15 of an image ten columns wide are filled. */
  lemma FillOutside(kernel: nat -> Reply, color: nat)
    ensures FillStep(kernel, OPENED, 10, 10, Rect(5, 0, 15, 10), color).0.accepted == [Fill(Rect(5, 0, 15, 10), color)]
  {
  }

  // ----- what a stretch reads

  /** The coordinates are C integers. */
  predicate Coordinates(r: Rect) {
    Int32(r.l) && Int32(r.t) && Int32(r.r) && Int32(r.b)
  }

  predicate ReadsInside(src: Rect, s: MdpRect) {
    src.l <= s.x && s.x + s.w <= src.r && src.t <= s.y && s.y + s.h <= src.b
  }

  /** A source rectangle that is not rejected lies in the image, upright or not. */
  lemma AcceptedSource(a: Stretch)
    requires !a.Rejected() && Coordinates(a.src)
    ensures 0 <= a.src.l && 0 <= a.src.t && 0 <= a.src.r <= a.srcW <= MAX_DIMENSION
            && 0 <= a.src.b <= a.srcH <= MAX_DIMENSION
  {
  }

  lemma RequestInsideIff(a: Stretch, clip: Rect, r: Req)
    requires Sized(a.dst) && Coordinates(a.src) && !a.Rejected() && RequestFor(a, clip) == [r]
    ensures r.Blit? && (ReadsInside(a.src, r.srcRect) <==> Upright(a.src))
  {
    AcceptedSource(a);
    var c := Intersect(Intersect(a.Bounds(), clip), a.dst);
    if Upright(a.src) {
      SourceRectInside(a.f, a.dst, a.src, c);
    }
  }

  /** Every request of a stretch that is not rejected reads inside the source rectangle exactly when that rectangle is
      upright, whatever the region, the scaling and the transform. */
  lemma {:induction false} EmittedInsideIff(a: Stretch, clips: seq<Rect>, r: Req)
    requires Sized(a.dst) && Coordinates(a.src) && !a.Rejected() && r in Requests(a, clips)
    ensures r.Blit? && (ReadsInside(a.src, r.srcRect) <==> Upright(a.src))
  {
    if r in RequestFor(a, clips[0]) {
      RequestInsideIff(a, clips[0], r);
    } else {
      EmittedInsideIff(a, clips[1..], r);
    }
  }

  /** An inverted rectangle is accepted and reads far outside a 100-pixel image. */
  lemma InvertedReadsOutside(a: Stretch, clips: seq<Rect>)
    requires a == Stretch(Transform(false, false, false), 10, 10, 100, 100,
                          Rect(0, 0, 10, 10), Rect(10, 0, 5, 10), false, Direct)
    requires clips == [a.dst]
    ensures !a.Rejected() && Sized(a.dst)
    ensures Requests(a, clips) == [Blit(MdpRect(0, 0, 10, 10), MdpRect(10, 0, 429496724, 10))]
  {
    InvertedRequest(a, a.dst);
    OneRequest(a, clips, Blit(MdpRect(0, 0, 10, 10), MdpRect(10, 0, 429496724, 10)));
  }

  lemma InvertedRequest(a: Stretch, clip: Rect)
    requires a.f == Transform(false, false, false) && a.Bounds() == Rect(0, 0, 10, 10) && a.dst == Rect(0, 0, 10, 10)
    requires a.src == Rect(10, 0, 5, 10) && clip == Rect(0, 0, 10, 10)
    ensures Sized(a.dst) && RequestFor(a, clip) == [Blit(MdpRect(0, 0, 10, 10), MdpRect(10, 0, 429496724, 10))]
  {
    var k := Selection(0, 0, 429496724, 10);
    InvertedSelection(a, clip, k);
    OneClip(a, clip, clip, k, MdpRect(10, 0, 429496724, 10));
  }

  /** The request of one clip that shows `c`. */
  lemma OneClip(a: Stretch, clip: Rect, c: Rect, k: Selection, e: MdpRect)
    requires Sized(a.dst) && c == Intersect(Intersect(a.Bounds(), clip), a.dst) && c.NonEmpty()
    requires Unsigned(c.l) == c.l && Unsigned(c.t) == c.t
    requires k == Selected(a.f, a.dst, a.src, c) && e == Placed(a.f, a.src, k) && e.w > 0 && e.h > 0
    ensures RequestFor(a, clip) == [Blit(MdpRect(c.l, c.t, c.r - c.l, c.b - c.t), e)]
  {
  }

  lemma OneRequest(a: Stretch, clips: seq<Rect>, p: Req)
    requires |clips| == 1 && Sized(a.dst) && RequestFor(a, clips[0]) == [p]
    ensures Requests(a, clips) == [p]
  {
    assert Requests(a, clips) == RequestFor(a, clips[0]) + Requests(a, clips[1..]);
  }

  lemma InvertedSelection(a: Stretch, c: Rect, k: Selection)
    requires Sized(a.dst) && !a.f.rot90 && a.dst == Rect(0, 0, 10, 10) && a.src == Rect(10, 0, 5, 10)
    requires c == Rect(0, 0, 10, 10) && k == Selection(0, 0, 429496724, 10)
    ensures Selected(a.f, a.dst, a.src, c) == k
  {
    assert Unsigned(-5) == 4294967291 && Times(4294967291, 10) == 4294967246 && Times(4294967291, 0) == 0;
    assert Scale(10, -5, 10) == 429496724 && Scale(0, -5, 10) == 0;
    assert Offsets(a.f, a.dst, c) == Selection(0, 0, 10, 10) && Extents(a.f, a.dst) == (10, 10);
  }

  /** A stretch clipped to nothing but its destination shows the whole source rectangle: the extents that stretch
      accepts cannot wrap. */
  lemma WholeStretch(a: Stretch)
    requires Sized(a.dst) && Coordinates(a.src) && !a.Rejected() && Upright(a.src)
    requires a.dst.NonEmpty() && a.dst.Within(a.Bounds())
    ensures SourceRect(a.f, a.dst, a.src, a.dst) == MdpRect(a.src.l, a.src.t, a.src.r - a.src.l, a.src.b - a.src.t)
  {
    AcceptedSource(a);
    var (W, H) := Extents(a.f, a.dst);
    SmallProduct(a.src.r - a.src.l, W);
    SmallProduct(a.src.b - a.src.t, H);
    WholeDestination(a.f, a.dst, a.src);
  }

  lemma SmallProduct(x: nat, y: nat)
    requires x <= MAX_DIMENSION && y <= MAX_DIMENSION
    ensures x * y < 0x1_0000_0000
  {
    MulMono(x, MAX_DIMENSION, y);
  }

  /** A destination reaching far beyond the image is accepted, and then an offset's product does wrap: the request
      shows the first columns of the source instead of the last. */
  lemma FarDestinationWraps(a: Stretch, clips: seq<Rect>)
    requires a == Stretch(Transform(false, false, false), 4096, 10, 4096, 10,
                          Rect(-2097152, 0, 4096, 10), Rect(0, 0, 4096, 10),
                          false, Direct)
    requires clips == [a.Bounds()]
    ensures !a.Rejected() && Sized(a.dst)
    ensures Requests(a, clips) == [Blit(MdpRect(0, 0, 4096, 10), MdpRect(0, 0, 7, 10))]
    ensures Floor(2097152, 4096, 2101248) == 4088
  {
    var k := Selection(0, 0, 7, 10);
    FarSelection(a, k, a.Bounds());
    OneClip(a, a.Bounds(), a.Bounds(), k, MdpRect(0, 0, 7, 10));
    OneRequest(a, clips, Blit(MdpRect(0, 0, 4096, 10), MdpRect(0, 0, 7, 10)));
  }

  lemma FarSelection(a: Stretch, k: Selection, c: Rect)
    requires Sized(a.dst) && !a.f.rot90 && a.dst == Rect(-2097152, 0, 4096, 10) && a.src == Rect(0, 0, 4096, 10)
    requires k == Selection(0, 0, 7, 10) && c == Rect(0, 0, 4096, 10)
    ensures Selected(a.f, a.dst, a.src, c) == k
  {
    assert Times(4096, 2097152) == 0 && Times(4096, 4096) == 16777216;
    assert Scale(2097152, 4096, 2101248) == 0 && Scale(4096, 4096, 2101248) == 7;
    assert Offsets(a.f, a.dst, c) == Selection(2097152, 0, 4096, 10) && Extents(a.f, a.dst) == (2101248, 10);
  }

  /** What one clip of a region shows, when it shows anything. */
  function Visible(a: Stretch, clip: Rect): Rect {
    Intersect(Intersect(a.Bounds(), clip), a.dst)
  }

  lemma RequestIs(a: Stretch, clip: Rect, p: Req)
    requires Sized(a.dst) && RequestFor(a, clip) == [p] && Upright(a.src) && Coordinates(a.src) && !a.Rejected()
    ensures BlitOk(a.dst, a.src, Visible(a, clip)) && p.Blit?
    ensures p.srcRect == SourceRect(a.f, a.dst, a.src, Visible(a, clip))
  {
    AcceptedSource(a);
  }

  /** The destination lies in bounds, or the extents' products fit 32 bits for another reason. */
  predicate Modest(a: Stretch) {
    a.dst.Within(a.Bounds()) || NoWrap(a.f, a.dst, a.src)
  }

  lemma ModestNoWrap(a: Stretch)
    requires Modest(a) && Sized(a.dst) && a.dst.NonEmpty() && Upright(a.src) && Coordinates(a.src) && !a.Rejected()
    ensures NoWrap(a.f, a.dst, a.src)
  {
    AcceptedSource(a);
    if a.dst.Within(a.Bounds()) {
      var (W, H) := Extents(a.f, a.dst);
      SmallProduct(a.src.r - a.src.l, W);
      SmallProduct(a.src.b - a.src.t, H);
    }
  }

  /** Of an accepted stretch whose destination lies in bounds, the requests of two clips that share a vertical edge show
      neighbouring parts of the source, never overlapping and at most one pixel apart. */
  lemma StretchColumnsMeet(a: Stretch, left: Rect, right: Rect, p: Req, q: Req)
    requires Sized(a.dst) && Coordinates(a.src) && !a.Rejected() && Upright(a.src) && Modest(a)
    requires left.r == right.l && left.t == right.t && left.b == right.b
    requires RequestFor(a, left) == [p] && RequestFor(a, right) == [q]
    ensures p.Blit? && q.Blit? && ColumnsMeet(a.f, p.srcRect, q.srcRect)
  {
    RequestIs(a, left, p);
    RequestIs(a, right, q);
    ModestNoWrap(a);
    NeighbourColumnsMeet(a.f, a.dst, a.src, Visible(a, left), Visible(a, right));
  }

  /** The same for a horizontal edge. */
  lemma StretchRowsMeet(a: Stretch, top: Rect, bottom: Rect, p: Req, q: Req)
    requires Sized(a.dst) && Coordinates(a.src) && !a.Rejected() && Upright(a.src) && Modest(a)
    requires top.b == bottom.t && top.l == bottom.l && top.r == bottom.r
    requires RequestFor(a, top) == [p] && RequestFor(a, bottom) == [q]
    ensures p.Blit? && q.Blit? && RowsMeet(a.f, p.srcRect, q.srcRect)
  {
    RequestIs(a, top, p);
    RequestIs(a, bottom, q);
    ModestNoWrap(a);
    NeighbourRowsMeet(a.f, a.dst, a.src, Visible(a, top), Visible(a, bottom));
  }

  /** A destination reaching beyond the image is accepted too, and its neighbouring clips then show
        columns 4080 and 1. */
  lemma FarNeighboursPart(a: Stretch, left: Rect, right: Rect)
    requires a.f == Transform(false, false, false) && a.dst == Rect(-1048575, 0, 4096, 10)
             && a.src == Rect(0, 0, 4096, 10)
    requires a.dstW == a.srcW == 4096 && a.dstH == a.srcH == 10 && !a.alphaUnsupported && a.source == Direct
    requires left == Rect(0, 0, 300, 10) && right == Rect(300, 0, 600, 10)
    ensures !a.Rejected() && Sized(a.dst)
    ensures RequestFor(a, left) == [Blit(MdpRect(0, 0, 300, 10), MdpRect(4080, 0, 1, 10))]
    ensures RequestFor(a, right) == [Blit(MdpRect(300, 0, 300, 10), MdpRect(1, 0, 1, 10))]
    ensures !ColumnsMeet(a.f, MdpRect(4080, 0, 1, 10), MdpRect(1, 0, 1, 10))
  {
    FarRequest(a, left, 4080);
    FarRequest(a, right, 1);
  }

  lemma FarRequest(a: Stretch, clip: Rect, x: nat)
    requires a.f == Transform(false, false, false) && a.dst == Rect(-1048575, 0, 4096, 10)
             && a.src == Rect(0, 0, 4096, 10)
    requires a.Bounds() == Rect(0, 0, 4096, 10)
    requires clip == Rect(0, 0, 300, 10) || clip == Rect(300, 0, 600, 10)
    requires x == if clip.l == 0 then 4080 else 1
    ensures Sized(a.dst) && RequestFor(a, clip) == [Blit(MdpRect(clip.l, 0, 300, 10), MdpRect(x, 0, 1, 10))]
  {
    FarColumn(a, clip, Selection(x, 0, 1, 10));
    OneClip(a, clip, clip, Selection(x, 0, 1, 10), MdpRect(x, 0, 1, 10));
  }

  lemma FarColumn(a: Stretch, c: Rect, k: Selection)
    requires Sized(a.dst) && !a.f.rot90 && a.dst == Rect(-1048575, 0, 4096, 10) && a.src == Rect(0, 0, 4096, 10)
    requires c == Rect(0, 0, 300, 10) || c == Rect(300, 0, 600, 10)
    requires k == Selection(if c.l == 0 then 4080 else 1, 0, 1, 10)
    ensures Selected(a.f, a.dst, a.src, c) == k
  {
    assert Times(4096, 1048575) == 4294963200 && Times(4096, 1048875) == 1224704 && Times(4096, 300) == 1228800;
    assert Scale(1048575, 4096, 1052671) == 4080 && Scale(1048875, 4096, 1052671) == 1;
    assert Scale(300, 4096, 1052671) == 1;
    assert Offsets(a.f, a.dst, c) == Selection(1048575 + c.l, 0, 300, 10) && Extents(a.f, a.dst) == (1052671, 10);
  }

  // ----- the device object

  class Device {
    const kernel: nat -> Reply
    const req: array<Req>
    var count: nat
    const acqFence: array<int>
    var acqFenceCount: nat
    var relFence: int
    ghost var accepted: seq<Req>
    ghost var log: seq<Submission>
    ghost var issued: seq<int>
    ghost var gone: seq<int>
    ghost var synced: seq<int>
    ghost var departed: seq<Group>
    var ioctls: nat

    ghost predicate Valid()
      reads this, req, acqFence
    {
      && req.Length == MAX_REQUESTS && acqFence.Length == MDP_MAX_FENCE_FD
      && count < MAX_REQUESTS && acqFenceCount < MDP_MAX_FENCE_FD
      && ioctls == |log|
    }

    ghost function Abs(): Context
      requires count <= req.Length && acqFenceCount <= acqFence.Length
      reads this, req, acqFence
    {
      Context(req[..count], acqFence[..acqFenceCount], relFence, accepted, log, issued, gone, synced, departed)
    }

    constructor (kernel: nat -> Reply)
      ensures Valid() && Abs() == OPENED && this.kernel == kernel && fresh(req) && fresh(acqFence)
    {
      this.kernel := kernel;
      req := new Req[MAX_REQUESTS](_ => Fill(Rect(0, 0, 0, 0), 0));
      acqFence := new int[MDP_MAX_FENCE_FD](_ => -1);
      count, acqFenceCount, relFence, ioctls := 0, 0, -1, 0;
      accepted, log, issued, gone, synced, departed := [], [], [], [], [], [];
    }

    method MsmCopybit(ghost keepIfRefused: bool) returns (status: int)
      requires req.Length == MAX_REQUESTS && acqFence.Length == MDP_MAX_FENCE_FD
      requires count <= MAX_REQUESTS && acqFenceCount < MDP_MAX_FENCE_FD && ioctls == |log|
      modifies this`relFence, this`log, this`issued, this`gone, this`ioctls
      ensures ioctls == |log|
      ensures (Abs(), status) == Submit(kernel, old(Abs()), keepIfRefused)
    {
      if relFence != -1 {
        gone := gone + [relFence];
        relFence := -1;
      }
      var reply := kernel(ioctls);
      ioctls := ioctls + 1;
      match reply
      case Taken(f) =>
        relFence := f;
        issued := issued + [f];
        log := log + [Submission(req[..count], acqFence[..acqFenceCount], true, false)];
        status := 0;
      case Refused(errno) =>
        log := log + [Submission(req[..count], acqFence[..acqFenceCount], false, keepIfRefused)];
        status := 0 - errno as int;
    }

    method SetSync(fd: int) returns (status: int)
      requires Valid()
      modifies this, acqFence
      ensures Valid() && (Abs(), status) == SetSyncStep(kernel, old(Abs()), fd)
    {
      status := 0;
      if fd != -1 {
        if acqFenceCount < MDP_MAX_FENCE_FD - 1 {
          acqFence[acqFenceCount] := fd;
          acqFenceCount := acqFenceCount + 1;
          synced := synced + [fd];
          assert Abs() == old(Abs()).(fences := old(acqFence[..acqFenceCount]) + [fd], synced := synced);
        } else {
          var ret := MsmCopybit(true);
          if ret < 0 {
            return -EINVAL;
          }
          ghost var sent := Abs();
          departed := departed + [Sent(acqFence[..acqFenceCount])];
          count := 0;
          acqFenceCount := 0;
          acqFence[acqFenceCount] := fd;
          acqFenceCount := acqFenceCount + 1;
          synced := synced + [fd];
          assert Abs() == sent.(pending := [], fences := [fd], synced := sent.synced + [fd], departed := departed);
        }
      }
    }

    /** `++list->count`, then the submission of a full list, shared by stretch and fill. */
    method CountRequest(ghost r: Req, ghost before: Context) returns (status: int)
      requires Valid() && before == Abs() && req[count] == r
      modifies this
      ensures Valid() && (Abs(), status) == Push(kernel, before, r)
    {
      count := count + 1;
      accepted := accepted + [r];
      status := 0;
      assert Abs() == before.(pending := before.pending + [r], accepted := before.accepted + [r]);
      if count == MAX_REQUESTS {
        status := MsmCopybit(false);
        departed := departed + [Sent(acqFence[..acqFenceCount])];
        acqFenceCount := 0;
        count := 0;
      }
    }

    method FillColor(w: nat, h: nat, rect: Rect, color: nat) returns (status: int)
      requires Valid()
      modifies this, req
      ensures Valid() && (Abs(), status) == FillStep(kernel, old(Abs()), w, h, rect, color)
    {
      if w > MAX_DIMENSION || h > MAX_DIMENSION {
        return -EINVAL;
      }
      if rect.l < 0 || Unsigned(rect.r - rect.l) > w || rect.t < 0 || Unsigned(rect.b - rect.t) > h {
        return -EINVAL;
      }
      ghost var before := Abs();
      req[count] := Fill(rect, color);
      assert Abs() == before;
      status := CountRequest(Fill(rect, color), before);
    }

    /** One turn of the stretch loop. The slot after the last request is written before the clip is
        known to be visible. */
    method StretchClip(a: Stretch, region: Rect) returns (status: int)
      requires Valid() && Sized(a.dst)
      modifies this, req
      ensures Valid()
      ensures var r := RequestFor(a, region);
              (Abs(), status) == if r == [] then (old(Abs()), 0) else Push(kernel, old(Abs()), r[0])
    {
      ghost var before := Abs();
      status := 0;
      var clip := Intersect(a.Bounds(), region);
      var ok, dstRect, srcRect := SetRects(a.f, a.dst, a.src, clip);
      assert RequestFor(a, region) == if ok && srcRect.w > 0 && srcRect.h > 0 then [Blit(dstRect, srcRect)] else [];
      req[count] := Blit(dstRect, srcRect);
      assert Abs() == before;
      if !ok {
        return;
      }
      if srcRect.w <= 0 || srcRect.h <= 0 {
        return;
      }
      if dstRect.w <= 0 || dstRect.h <= 0 {
        return;
      }
      status := CountRequest(Blit(dstRect, srcRect), before);
    }

    method Stretch(a: Stretch, clips: seq<Rect>) returns (status: int)
      requires Valid() && Sized(a.dst)
      modifies this, req
      ensures Valid() && (Abs(), status) == StretchStep(kernel, old(Abs()), a, clips)
    {
      if a.Rejected() {
        return -EINVAL;
      }
      status := 0;
      var i := 0;
      ghost var start, all := Abs(), Requests(a, clips);
      assert clips[0..] == clips;
      while status == 0 && i < |clips|
        invariant Valid() && 0 <= i <= |clips|
        invariant status == 0 ==> PushAll(kernel, start, all) == PushAll(kernel, Abs(), Requests(a, clips[i..]))
        invariant status != 0 ==> PushAll(kernel, start, all) == (Abs(), status)
      {
        assert clips[i..][1..] == clips[i + 1..];
        SkippedOrFirst(a, clips[i], clips[i..]);
        status := StretchClip(a, clips[i]);
        i := i + 1;
      }
      assert status == 0 ==> Requests(a, clips[i..]) == [];
      assert PushAll(kernel, start, all) == (Abs(), status);
      status := FinishStretch(status, a.source == Converted);
    }

    /** The end of a stretch, before a converted image's buffer is freed. */
    method FinishStretch(status: int, converted: bool) returns (status': int)
      requires Valid()
      modifies this
      ensures Valid() && (Abs(), status') == Finish(kernel, old(Abs()), status, converted)
    {
      status' := status;
      if converted && count != 0 {
        status' := MsmCopybit(false);
        departed := departed + [Sent(acqFence[..acqFenceCount])];
        acqFenceCount := 0;
        count := 0;
      }
    }

    method FlushGetFence() returns (status: int, fd: int)
      requires Valid()
      modifies this
      ensures Valid() && (Abs(), status, fd) == FlushStep(kernel, old(Abs()))
    {
      status := -EINVAL;
      if count != 0 {
        status := MsmCopybit(false);
        departed := departed + [Sent(acqFence[..acqFenceCount])];
        count := 0;
      } else {
        departed := departed + [Forgotten(acqFence[..acqFenceCount])];
      }
      fd := relFence;
      acqFenceCount := 0;
      if relFence != -1 {
        gone := gone + [relFence];
      }
      relFence := -1;
    }
  }
}
