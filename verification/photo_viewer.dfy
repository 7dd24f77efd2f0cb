/** The full-screen viewer's state machine (src/components/PhotoViewer.tsx):
    index navigation, the load effect that runs whenever the current image
    changes, and the per-request `revoked` flag that discards late results.

    Each run of the load effect is numbered; `token` is the number of the
    latest run. A request remembers the number of the run that started it and
    is stale exactly when a later run, or the unmount, has run its cleanup,
    that is when its number is no longer `token`. Loading itself is outside the
    model: its outcome arrives as an event carrying the request's number. */
module PhotoViewer {
  import opened Types
  import opened ImageLoader

  datatype Viewer = Viewer(
    images: seq<ImageFile>,
    index: int,
    imageUrl: Option<string>,
    isLoading: bool,
    token: nat,
    pending: set<nat>,
    delivered: seq<string>,
    revoked: seq<string>,
    mounted: bool
  )

  // ---------------------------------------------------------------------------
  // Navigation
  // ---------------------------------------------------------------------------

  /** The `goNext` updater. */
  function NextIndex(i: int, len: nat): (j: int)
    ensures i < len - 1 ==> j == i + 1
    ensures i >= len - 1 ==> j == i
  {
    if i < len - 1 then i + 1 else i
  }

  /** The `goPrev` updater. */
  function PrevIndex(i: int): (j: int)
    ensures i > 0 ==> j == i - 1
    ensures i <= 0 ==> j == i
  {
    if i > 0 then i - 1 else i
  }

  /** Moving forward and then back returns to the start, unless the forward
      move was blocked at the last image; and the other way round. */
  lemma NextPrevInverse(i: int, len: nat)
    ensures 0 <= i < len - 1 ==> PrevIndex(NextIndex(i, len)) == i
    ensures 0 < i < len ==> NextIndex(PrevIndex(i), len) == i
  {
  }

  datatype Move = Next | Prev

  function ApplyMove(i: int, len: nat, m: Move): int {
    match m
    case Next => NextIndex(i, len)
    case Prev => PrevIndex(i)
  }

  /** The index after a sequence of key presses or button clicks. */
  function ApplyMoves(i: int, len: nat, ms: seq<Move>): (j: int)
    decreases |ms|
  {
    if ms == [] then i else ApplyMoves(ApplyMove(i, len, ms[0]), len, ms[1..])
  }

  /** An index that starts in range stays in range under any moves, and each
      move changes it by at most one. */
  lemma {:induction false} MovesStayInRange(i: int, len: nat, ms: seq<Move>)
    requires 0 <= i < len
    ensures 0 <= ApplyMoves(i, len, ms) < len
    ensures i - |ms| <= ApplyMoves(i, len, ms) <= i + |ms|
    decreases |ms|
  {
    if ms != [] {
      MovesStayInRange(ApplyMove(i, len, ms[0]), len, ms[1..]);
    }
  }

  /** Enough forward moves reach the last image, and stay there. */
  lemma {:induction false} NextsReachLast(i: int, len: nat, k: nat)
    requires 0 <= i < len
    requires k >= len - 1 - i
    ensures ApplyMoves(i, len, seq(k, _ => Next)) == len - 1
    decreases k
  {
    if k > 0 {
      assert seq(k, _ => Next)[1..] == seq(k - 1, _ => Next);
      NextsReachLast(NextIndex(i, len), len, k - 1);
    }
  }

  // ---------------------------------------------------------------------------
  // The load effect
  // ---------------------------------------------------------------------------

  /** `images[currentIndex]`: undefined outside the list. */
  function CurrentImage(v: Viewer): (img: Option<ImageFile>)
    ensures img.Some? <==> 0 <= v.index < |v.images|
    ensures img.Some? ==> img.value == v.images[v.index]
  {
    if 0 <= v.index < |v.images| then Some(v.images[v.index]) else None
  }

  /** A new run of the load effect: the previous run's cleanup marks its
      request stale; with no current image nothing else happens, otherwise
      the viewer shows the spinner and starts a request numbered by this run. */
  function RunLoadEffect(v: Viewer): (r: Viewer)
    ensures r.token == v.token + 1
    ensures CurrentImage(v).None? ==> r == v.(token := v.token + 1)
    ensures CurrentImage(v).Some? ==> r.isLoading && r.pending == v.pending + {r.token}
    ensures r.imageUrl == v.imageUrl && r.revoked == v.revoked && r.index == v.index
  {
    var t := v.token + 1;
    if CurrentImage(v).None? then v.(token := t)
    else v.(token := t, isLoading := true, pending := v.pending + {t})
  }

  /** Mounting with `initialIndex`: no URL yet, loading, and the first run of
      the load effect. */
  function Mount(images: seq<ImageFile>, initialIndex: int): (v: Viewer)
    ensures v.index == initialIndex && v.imageUrl == None && v.isLoading
    ensures v.mounted && v.delivered == [] && v.revoked == []
    ensures v.pending == (if 0 <= initialIndex < |images| then {v.token} else {})
  {
    RunLoadEffect(Viewer(images, initialIndex, None, true, 0, {}, [], [], true))
  }

  /** A move: the index updates, and the load effect re-runs exactly when the
      current image changed. */
  function Navigate(v: Viewer, m: Move): (r: Viewer)
    ensures r.index == ApplyMove(v.index, |v.images|, m)
    ensures CurrentImage(r) == CurrentImage(v) ==> r == v.(index := r.index)
    ensures CurrentImage(r) != CurrentImage(v) ==> r.token == v.token + 1
  {
    var moved := v.(index := ApplyMove(v.index, |v.images|, m));
    if CurrentImage(moved) == CurrentImage(v) then moved else RunLoadEffect(moved)
  }

  /** The request numbered `t` is still the current one. */
  predicate Live(v: Viewer, t: nat) {
    t == v.token
  }

  /** Request `t` resolved with `url`. A live result becomes `imageUrl`, after
      the previous URL, if any and non-empty, is passed to `revokeImageUrl`; a
      stale result is passed to `revokeImageUrl` itself and is never shown. */
  function LoadSucceeded(v: Viewer, t: nat, url: string): (r: Viewer)
    requires t in v.pending
    ensures r.pending == v.pending - {t} && r.delivered == v.delivered + [url]
    ensures r.index == v.index && r.token == v.token && r.images == v.images
    ensures Live(v, t) ==> r.imageUrl == Some(url) && !r.isLoading
    ensures Live(v, t) && v.imageUrl.Some? && v.imageUrl.value != "" ==>
      r.revoked == RevokeImageUrl(v.revoked, v.imageUrl.value)
    ensures Live(v, t) && (v.imageUrl.None? || v.imageUrl.value == "") ==> r.revoked == v.revoked
    ensures !Live(v, t) ==> r.imageUrl == v.imageUrl && r.isLoading == v.isLoading
    ensures !Live(v, t) ==> r.revoked == RevokeImageUrl(v.revoked, url)
  {
    var v1 := v.(pending := v.pending - {t}, delivered := v.delivered + [url]);
    if Live(v, t) then
      var revoked := match v.imageUrl
        case Some(prev) => if prev != "" then RevokeImageUrl(v.revoked, prev) else v.revoked
        case None => v.revoked;
      v1.(imageUrl := Some(url), isLoading := false, revoked := revoked)
    else
      v1.(revoked := RevokeImageUrl(v.revoked, url))
  }

  /** Request `t` failed: a live failure ends the spinner and keeps the URL;
      a stale one changes nothing. */
  function LoadFailed(v: Viewer, t: nat): (r: Viewer)
    requires t in v.pending
    ensures r.pending == v.pending - {t}
    ensures Live(v, t) ==> r == v.(pending := r.pending, isLoading := false)
    ensures !Live(v, t) ==> r == v.(pending := r.pending)
  {
    var v1 := v.(pending := v.pending - {t});
    if Live(v, t) then v1.(isLoading := false) else v1
  }

  /** Unmounting as the component is written: the load effect's cleanup marks
      the pending request stale, and the unmount effect's cleanup sees the
      `imageUrl` of the first render, which is always null, so it revokes
      nothing. */
  function UnmountAsWritten(v: Viewer): (r: Viewer)
    ensures !r.mounted && r.token == v.token + 1
    ensures r.revoked == v.revoked && r.imageUrl == v.imageUrl
  {
    var initialUrl: Option<string> := None;
    var revoked := match initialUrl
      case Some(u) => if u != "" then RevokeImageUrl(v.revoked, u) else v.revoked
      case None => v.revoked;
    v.(token := v.token + 1, mounted := false, revoked := revoked)
  }

  /** Unmounting as intended: the cleanup releases the URL on screen. */
  function Unmount(v: Viewer): (r: Viewer)
    ensures !r.mounted && r.token == v.token + 1 && r.imageUrl == v.imageUrl
    ensures v.imageUrl.Some? && v.imageUrl.value != "" ==>
      r.revoked == RevokeImageUrl(v.revoked, v.imageUrl.value)
    ensures v.imageUrl.None? || v.imageUrl.value == "" ==> r.revoked == v.revoked
  {
    var revoked := match v.imageUrl
      case Some(u) => if u != "" then RevokeImageUrl(v.revoked, u) else v.revoked
      case None => v.revoked;
    v.(token := v.token + 1, mounted := false, revoked := revoked)
  }

  // ---------------------------------------------------------------------------
  // Runs of events
  // ---------------------------------------------------------------------------

  datatype Event = Nav(m: Move) | Succeed(t: nat, url: string) | Fail(t: nat) | Close

  /** One event, with the corrected close (`Unmount`). Navigation only happens
      while mounted, and a request settles at most once: an outcome for a
      request that is not pending is ignored. */
  function Step(v: Viewer, e: Event): Viewer {
    match e
    case Nav(m) => if v.mounted then Navigate(v, m) else v
    case Succeed(t, url) => if t in v.pending then LoadSucceeded(v, t, url) else v
    case Fail(t) => if t in v.pending then LoadFailed(v, t) else v
    case Close => if v.mounted then Unmount(v) else v
  }

  function Run(v: Viewer, es: seq<Event>): Viewer
    decreases |es|
  {
    if es == [] then v else Run(Step(v, es[0]), es[1..])
  }

  // ---------------------------------------------------------------------------
  // Invariants
  // ---------------------------------------------------------------------------

  /** Every delivered blob URL is either on screen or has been revoked. */
  predicate Accounted(v: Viewer) {
    forall u :: u in v.delivered && IsBlobUrl(u) ==> v.imageUrl == Some(u) || u in v.revoked
  }

  /** Every delivered blob URL has been revoked. */
  predicate Released(v: Viewer) {
    forall u :: u in v.delivered && IsBlobUrl(u) ==> u in v.revoked
  }

  /** Requests are numbered by past runs, only the latest can be live and it
      keeps the spinner on; while mounted no blob URL leaks, and after the
      unmount no request is live and every blob URL has been released. */
  predicate Valid(v: Viewer) {
    && (forall t :: t in v.pending ==> t <= v.token)
    && (v.token in v.pending ==> v.isLoading && v.mounted)
    && (v.mounted ==> Accounted(v))
    && (!v.mounted ==> Released(v))
  }

  lemma MountValid(images: seq<ImageFile>, initialIndex: int)
    ensures Valid(Mount(images, initialIndex))
  {
  }

  lemma {:induction false} LoadSucceededKeepsValid(v: Viewer, t: nat, url: string)
    requires Valid(v) && t in v.pending
    ensures Valid(LoadSucceeded(v, t, url))
  {
    var r := LoadSucceeded(v, t, url);
    if Live(v, t) {
      forall u | u in r.delivered && IsBlobUrl(u) ensures r.imageUrl == Some(u) || u in r.revoked {
        if u != url {
          assert u in v.delivered;
        }
      }
    } else {
      forall u | u in r.delivered && IsBlobUrl(u) ensures (r.mounted ==> r.imageUrl == Some(u) || u in r.revoked) && (!r.mounted ==> u in r.revoked) {
        if u != url {
          assert u in v.delivered;
        }
      }
    }
  }

  /** Every event keeps the viewer valid. */
  lemma {:induction false} StepKeepsValid(v: Viewer, e: Event)
    requires Valid(v)
    ensures Valid(Step(v, e))
  {
    match e {
      case Nav(m) =>
      case Succeed(t, url) =>
        if t in v.pending {
          LoadSucceededKeepsValid(v, t, url);
        }
      case Fail(t) =>
      case Close =>
    }
  }

  lemma {:induction false} RunKeepsValid(v: Viewer, es: seq<Event>)
    requires Valid(v)
    ensures Valid(Run(v, es))
    decreases |es|
  {
    if es != [] {
      StepKeepsValid(v, es[0]);
      RunKeepsValid(Step(v, es[0]), es[1..]);
    }
  }

  /** With the corrected close (`Unmount`), from mounting on, whatever
      happens: while the viewer is open every blob URL a load produced is on
      screen or revoked, and once it is closed every one of them is revoked. */
  lemma NoBlobUrlLeaks(images: seq<ImageFile>, initialIndex: int, es: seq<Event>)
    ensures var v := Run(Mount(images, initialIndex), es);
      (v.mounted ==> Accounted(v)) && (!v.mounted ==> Released(v))
  {
    MountValid(images, initialIndex);
    RunKeepsValid(Mount(images, initialIndex), es);
  }

  // ---------------------------------------------------------------------------
  // The component as written
  // ---------------------------------------------------------------------------

  /** One event, with the close as the component is written. */
  function StepAsWritten(v: Viewer, e: Event): (r: Viewer)
    ensures e.Close? && v.mounted ==> r == UnmountAsWritten(v)
    ensures !e.Close? ==> r == Step(v, e)
  {
    match e
    case Close => if v.mounted then UnmountAsWritten(v) else v
    case _ => Step(v, e)
  }

  function RunAsWritten(v: Viewer, es: seq<Event>): Viewer
    decreases |es|
  {
    if es == [] then v else RunAsWritten(StepAsWritten(v, es[0]), es[1..])
  }

  /** What the component keeps as written: the same bookkeeping of requests,
      and every delivered blob URL on screen or revoked, whether the viewer is
      open or closed. */
  predicate ValidAsWritten(v: Viewer) {
    && (forall t :: t in v.pending ==> t <= v.token)
    && (v.token in v.pending ==> v.isLoading && v.mounted)
    && Accounted(v)
  }

  lemma {:induction false} LoadSucceededKeepsValidAsWritten(v: Viewer, t: nat, url: string)
    requires ValidAsWritten(v) && t in v.pending
    ensures ValidAsWritten(LoadSucceeded(v, t, url))
  {
    var r := LoadSucceeded(v, t, url);
    forall u | u in r.delivered && IsBlobUrl(u) ensures r.imageUrl == Some(u) || u in r.revoked {
      if u != url {
        assert u in v.delivered;
      }
    }
  }

  /** Every event, with the close as written, keeps `ValidAsWritten`. */
  lemma {:induction false} StepAsWrittenKeepsValid(v: Viewer, e: Event)
    requires ValidAsWritten(v)
    ensures ValidAsWritten(StepAsWritten(v, e))
  {
    match e {
      case Nav(m) =>
      case Succeed(t, url) =>
        if t in v.pending {
          LoadSucceededKeepsValidAsWritten(v, t, url);
        }
      case Fail(t) =>
      case Close =>
    }
  }

  lemma {:induction false} RunAsWrittenKeepsValid(v: Viewer, es: seq<Event>)
    requires ValidAsWritten(v)
    ensures ValidAsWritten(RunAsWritten(v, es))
    decreases |es|
  {
    if es != [] {
      StepAsWrittenKeepsValid(v, es[0]);
      RunAsWrittenKeepsValid(StepAsWritten(v, es[0]), es[1..]);
    }
  }

  /** As written, no blob URL leaks while the viewer is open, and after the
      close the only delivered blob URL that can remain unrevoked is the one
      that was on screen. */
  lemma AsWrittenLeaksOnlyScreenUrl(images: seq<ImageFile>, initialIndex: int, es: seq<Event>)
    ensures var v := RunAsWritten(Mount(images, initialIndex), es);
      forall u :: u in v.delivered && IsBlobUrl(u) && u !in v.revoked ==> v.imageUrl == Some(u)
  {
    MountValid(images, initialIndex);
    RunAsWrittenKeepsValid(Mount(images, initialIndex), es);
  }

  /** A stale result is not shown: when a result arrives for a request that
      is no longer live, that one step leaves the URL on screen as it was and
      revokes the result's blob URL. */
  lemma StaleResultNeverShown(v: Viewer, t: nat, url: string)
    requires Valid(v) && t in v.pending && t != v.token
    ensures LoadSucceeded(v, t, url).imageUrl == v.imageUrl
    ensures url in LoadSucceeded(v, t, url).revoked || !IsBlobUrl(url)
  {
  }

  /** Closing the viewer as written leaks the URL on screen: after one
      successful load and a close, that blob URL was never revoked. */
  lemma UnmountAsWrittenLeaks(img: ImageFile)
    ensures var v0 := Mount([img], 0);
      var v1 := LoadSucceeded(v0, v0.token, "blob:a");
      var v2 := UnmountAsWritten(v1);
      && "blob:a" in v2.delivered && IsBlobUrl("blob:a")
      && "blob:a" !in v2.revoked && !v2.mounted
  {
    var v0 := Mount([img], 0);
    assert v0.token in v0.pending;
    var v1 := LoadSucceeded(v0, v0.token, "blob:a");
    assert v1.revoked == [];
  }
}
