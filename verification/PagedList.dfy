/**
  The offset-paged listing hook: fetches overlap, answers arrive in any order, and only the
  newest request may write what is on screen.
*/
module PagedList {
  import opened Options

  /** What one fetch asks for: the caller's inputs, by identity, and an offset into that list. */
  datatype Window = Window(deps: nat, offset: nat)

  /** An answer: a page, by its contents, or a failed read. */
  datatype Result = Page(contents: nat) | Failure

  /** A fetch still out. `effect` numbers the effect that started it; a reload has none to be cancelled by. */
  datatype Fetch = Fetch(window: Window, effect: Option<nat>)

  datatype Shown = Nothing | Shows(ticket: nat, result: Result)

  datatype Hook = Hook(
    window: Window,             // deps and offset of the committed render
    effect: nat,                // the current effect; every earlier one is cancelled
    latest: nat,                // latestRequest
    out: map<nat, Fetch>,       // by ticket
    asked: map<nat, Window>,    // what each ticket asked for
    loading: bool,
    shown: Shown,
    applied: seq<nat>)          // tickets whose answers were written, in order

  datatype Event =
    | SetOffset(offset: nat)
    | ChangeDeps(deps: nat)
    | Reload(offset: nat)                     // the offset its callback closed over
    | Arrive(ticket: nat, result: Result)

  function Issue(h: Hook, f: Fetch): Hook {
    h.(latest := h.latest + 1, out := h.out[h.latest + 1 := f], asked := h.asked[h.latest + 1 := f.window])
  }

  /** A committed render whose refresh changed: the old effect is cancelled, the new one fetches. */
  function RunEffect(h: Hook, w: Window): Hook {
    Issue(h.(window := w, effect := h.effect + 1, loading := true), Fetch(w, Some(h.effect + 1)))
  }

  function Mount(deps: nat): Hook {
    RunEffect(Hook(Window(deps, 0), 0, 0, map[], map[], true, Nothing, []), Window(deps, 0))
  }

  predicate Enabled(h: Hook, e: Event) {
    e.Arrive? ==> e.ticket in h.out
  }

  function Apply(h: Hook, e: Event): Hook
    requires Enabled(h, e)
  {
    match e
    case SetOffset(offset) =>
      if offset == h.window.offset then h else RunEffect(h, h.window.(offset := offset))
    case ChangeDeps(deps) =>
      // The render that notices rewinds the offset before anything is fetched.
      if deps == h.window.deps then h else RunEffect(h, Window(deps, 0))
    case Reload(offset) =>
      // The page is fetched through a ref, so the inputs asked for are those on screen.
      Issue(h, Fetch(Window(h.window.deps, offset), None))
    case Arrive(ticket, result) =>
      var cancelled := h.out[ticket].effect.Some? && h.out[ticket].effect.value != h.effect;
      var landed := h.(out := h.out - {ticket});
      var written := if cancelled || ticket != h.latest then landed
                     else landed.(shown := Shows(ticket, result), applied := h.applied + [ticket]);
      if h.out[ticket].effect.Some? && !cancelled then written.(loading := false) else written
  }

  /** The hook as its refs and state variables, changed by effects and completions. */
  class UsePagedList {
    var window: Window
    var effect: nat
    var latestRequest: nat
    var out: map<nat, Fetch>
    var loading: bool
    var shown: Shown
    ghost var asked: map<nat, Window>
    ghost var applied: seq<nat>

    ghost function State(): Hook
      reads this
    {
      Hook(window, effect, latestRequest, out, asked, loading, shown, applied)
    }

    constructor (deps: nat)
      ensures State() == Mount(deps)
    {
      window, effect, latestRequest := Window(deps, 0), 0, 0;
      out, loading, shown := map[], true, Nothing;
      asked, applied := map[], [];
      new;
      Effect(Window(deps, 0));
    }

    method Refresh(f: Fetch)
      modifies this
      ensures State() == Issue(old(State()), f)
    {
      latestRequest := latestRequest + 1;
      out := out[latestRequest := f];
      asked := asked[latestRequest := f.window];
    }

    method Effect(w: Window)
      modifies this
      ensures State() == RunEffect(old(State()), w)
    {
      window, effect, loading := w, effect + 1, true;
      Refresh(Fetch(w, Some(effect)));
    }

    method Render(deps: nat, offset: nat)
      modifies this
      ensures deps == old(window).deps ==> State() == Apply(old(State()), SetOffset(offset))
      ensures deps != old(window).deps ==> State() == Apply(old(State()), ChangeDeps(deps))
    {
      var w := Window(deps, if deps != window.deps then 0 else offset);
      if w != window { Effect(w); }
    }

    method ReloadFrom(offset: nat)
      modifies this
      ensures State() == Apply(old(State()), Reload(offset))
    {
      Refresh(Fetch(Window(window.deps, offset), None));
    }

    method Completed(ticket: nat, result: Result)
      requires ticket in out
      modifies this
      ensures State() == Apply(old(State()), Arrive(ticket, result))
    {
      var f := out[ticket];
      var cancelled := f.effect.Some? && f.effect.value != effect;
      out := out - {ticket};
      if !cancelled && ticket == latestRequest {
        shown := Shows(ticket, result);
        applied := applied + [ticket];
      }
      if f.effect.Some? && !cancelled { loading := false; }
    }
  }

  // ------------------------------------------------------------- invariant

  ghost predicate Rising(s: seq<nat>) {
    forall i, j :: 0 <= i < j < |s| ==> s[i] < s[j]
  }

  /** Answers were written for rising tickets, none of them still out; the last is on screen. */
  ghost predicate WrittenOk(h: Hook) {
    && Rising(h.applied) && (forall t <- h.applied :: 1 <= t <= h.latest && t !in h.out)
    && (h.applied == [] <==> h.shown == Nothing)
    && (h.shown.Shows? ==> h.shown.ticket == h.applied[|h.applied| - 1])
    && (h.latest !in h.out ==> h.shown.Shows? && h.shown.ticket == h.latest)
  }

  /** Every fetch out was issued, and the newest is not cancelled. */
  ghost predicate OutOk(h: Hook) {
    && h.latest in h.asked
    && (forall t <- h.out :: 1 <= t <= h.latest && t in h.asked && h.out[t].window == h.asked[t])
    && (h.latest in h.out ==> h.out[h.latest].effect.None? || h.out[h.latest].effect.value == h.effect)
    && (forall t <- h.out :: h.out[t].effect.Some? ==> h.out[t].effect.value <= h.effect)
    && (forall t, v :: t in h.out && v in h.out && t != v && h.out[t].effect.Some?
                       ==> h.out[t].effect != h.out[v].effect)
  }

  ghost predicate LoadingOk(h: Hook) {
    h.loading <==> exists t :: t in h.out && h.out[t].effect == Some(h.effect)
  }

  ghost predicate Inv(h: Hook) {
    WrittenOk(h) && OutOk(h) && LoadingOk(h)
  }

  lemma IssueKeeps(h: Hook, f: Fetch)
    requires WrittenOk(h) && forall t <- h.out :: t <= h.latest
    ensures WrittenOk(Issue(h, f))
  {
  }

  lemma InvReload(h: Hook, offset: nat)
    requires Inv(h)
    ensures Inv(Apply(h, Reload(offset)))
  {
    var f := Fetch(Window(h.window.deps, offset), None);
    var h' := Issue(h, f);
    IssueKeeps(h, f);
    assert OutOk(h');
    if h.loading {
      var t :| t in h.out && h.out[t].effect == Some(h.effect);
      assert t in h'.out && h'.out[t].effect == Some(h'.effect);
    }
  }

  lemma InvEffect(h: Hook, w: Window)
    requires Inv(h)
    ensures Inv(RunEffect(h, w))
  {
    var f := Fetch(w, Some(h.effect + 1));
    IssueKeeps(h.(window := w, effect := h.effect + 1, loading := true), f);
    assert RunEffect(h, w).out[h.latest + 1] == f;
  }

  lemma RisingGrows(applied: seq<nat>, latest: nat, out: set<nat>)
    requires Rising(applied) && latest in out && forall t <- applied :: t <= latest && t !in out
    ensures Rising(applied + [latest])
  {
    assert forall i :: 0 <= i < |applied| ==> applied[i] in applied;
  }

  lemma WrittenArrive(h: Hook, ticket: nat, result: Result)
    requires Inv(h) && ticket in h.out
    ensures WrittenOk(Apply(h, Arrive(ticket, result)))
  {
    if h.latest in h.out && ticket == h.latest {
      RisingGrows(h.applied, h.latest, h.out.Keys);
      WrittenLatest(h, result, Apply(h, Arrive(ticket, result)));
    }
  }

  lemma WrittenLatest(h: Hook, result: Result, h': Hook)
    requires WrittenOk(h) && h.latest in h.out && 1 <= h.latest && Rising(h.applied + [h.latest])
    requires h'.latest == h.latest && h'.out == h.out - {h.latest} && h'.applied == h.applied + [h.latest]
    requires h'.shown == Shows(h.latest, result)
    ensures WrittenOk(h')
  {
  }

  lemma OutArrive(h: Hook, ticket: nat, result: Result)
    requires Inv(h) && ticket in h.out
    ensures OutOk(Apply(h, Arrive(ticket, result)))
  {
  }

  lemma LoadingArrive(h: Hook, ticket: nat, result: Result)
    requires Inv(h) && ticket in h.out
    ensures LoadingOk(Apply(h, Arrive(ticket, result)))
  {
    var h' := Apply(h, Arrive(ticket, result));
    if h.loading {
      var t :| t in h.out && h.out[t].effect == Some(h.effect);
      assert ticket != t ==> t in h'.out && h'.out[t].effect == Some(h'.effect);
    }
  }

  lemma InvStep(h: Hook, e: Event)
    requires Inv(h) && Enabled(h, e)
    ensures Inv(Apply(h, e))
  {
    match e
    case SetOffset(offset) => InvEffect(h, h.window.(offset := offset));
    case ChangeDeps(deps) => InvEffect(h, Window(deps, 0));
    case Reload(offset) => InvReload(h, offset);
    case Arrive(ticket, result) =>
      WrittenArrive(h, ticket, result);
      OutArrive(h, ticket, result);
      LoadingArrive(h, ticket, result);
  }

  predicate Run(h: Hook, es: seq<Event>)
    decreases |es|
  {
    es == [] || (Enabled(h, es[0]) && Run(Apply(h, es[0]), es[1..]))
  }

  function After(h: Hook, es: seq<Event>): Hook
    requires Run(h, es)
    decreases |es|
  {
    if es == [] then h else After(Apply(h, es[0]), es[1..])
  }

  lemma {:induction false} InvRun(h: Hook, es: seq<Event>)
    requires Inv(h) && Run(h, es)
    ensures Inv(After(h, es))
    decreases |es|
  {
    if es != [] {
      InvStep(h, es[0]);
      InvRun(Apply(h, es[0]), es[1..]);
    }
  }

  lemma InvMount(deps: nat)
    ensures Inv(Mount(deps)) && Mount(deps).asked[Mount(deps).latest] == Mount(deps).window
  {
    assert Mount(deps).out[1].effect == Some(1);
  }

  /** What one more step does to the screen. */
  lemma NewestStep(h: Hook, e: Event)
    requires Inv(h) && Enabled(h, e)
    ensures var h' := Apply(h, e);
            && (h'.applied != h.applied ==> e.Arrive? && e.ticket == h.latest && h'.applied == h.applied + [h.latest])
            && (h'.shown != h.shown ==> e.Arrive? && h'.shown == Shows(h.latest, e.result))
  {
  }

  /**
    Newest request wins, over every order of paging, changing inputs, reloading and answers
    arriving: written tickets only rise; an answer is never written once a newer ticket is
    out; `loading` is on exactly while the current effect's own fetch is out; and when
    nothing is out the screen shows the newest ticket's answer.
  */
  lemma NewestRequestWins(deps: nat, es: seq<Event>, last: Event)
    requires Run(Mount(deps), es) && Enabled(After(Mount(deps), es), last)
    ensures var h := After(Mount(deps), es);
            var h' := Apply(h, last);
            && Rising(h'.applied)
            && (h'.applied != h.applied ==>
                   last.Arrive? && last.ticket == h.latest && h'.applied == h.applied + [h.latest])
            && (h'.shown != h.shown ==> last.Arrive? && h'.shown == Shows(h.latest, last.result))
            && (h'.loading <==> exists t :: t in h'.out && h'.out[t].effect == Some(h'.effect))
            && (h'.out == map[] ==> h'.shown.Shows? && h'.shown.ticket == h'.latest && !h'.loading)
  {
    InvMount(deps);
    InvRun(Mount(deps), es);
    NewestStep(After(Mount(deps), es), last);
    InvStep(After(Mount(deps), es), last);
  }

  // ------------------------------------------------------- what the user asked for

  /** The window a user's paging and searching comes to: any page asked for, a new list from its first page. */
  function Follow(w: Window, es: seq<Event>): Window
    decreases |es|
  {
    if es == [] then w else
      var next :=
        match es[0]
        case SetOffset(offset) => Window(w.deps, offset)
        case ChangeDeps(deps) => if deps == w.deps then w else Window(deps, 0)
        case _ => w;
      Follow(next, es[1..])
  }

  /** How many fetches that takes: one for every change of the window, and one for every reload. */
  function Fetches(w: Window, es: seq<Event>): nat
    decreases |es|
  {
    if es == [] then 0 else
      var next := Follow(w, es[..1]);
      (if next != w || es[0].Reload? then 1 else 0) + Fetches(next, es[1..])
  }

  /** The screen follows the user, back as well as forward, and fetches no more than that takes. */
  lemma {:induction false} ScreenFollowsTheUser(h: Hook, es: seq<Event>)
    requires Run(h, es)
    ensures After(h, es).window == Follow(h.window, es)
    ensures After(h, es).latest == h.latest + Fetches(h.window, es)
    decreases |es|
  {
    if es != [] {
      var next := Apply(h, es[0]).window;
      assert es[..1][1..] == [] && Follow(h.window, es[..1]) == next;
      ScreenFollowsTheUser(Apply(h, es[0]), es[1..]);
    }
  }

  // -------------------------------------------- reloads held by an old render

  /** Every reload was called through a callback that closed over the offset then on screen. */
  predicate FreshReloads(h: Hook, es: seq<Event>)
    requires Run(h, es)
    decreases |es|
  {
    es == [] || ((es[0].Reload? ==> es[0].offset == h.window.offset) && FreshReloads(Apply(h, es[0]), es[1..]))
  }

  lemma {:induction false} FreshReloadsAskCurrent(h: Hook, es: seq<Event>)
    requires Inv(h) && Run(h, es) && FreshReloads(h, es) && h.asked[h.latest] == h.window
    ensures Inv(After(h, es)) && After(h, es).asked[After(h, es).latest] == After(h, es).window
    decreases |es|
  {
    if es != [] {
      InvStep(h, es[0]);
      FreshStep(h, es[0]);
      FreshReloadsAskCurrent(Apply(h, es[0]), es[1..]);
    }
  }

  lemma FreshStep(h: Hook, e: Event)
    requires Inv(h) && Enabled(h, e) && h.asked[h.latest] == h.window && (e.Reload? ==> e.offset == h.window.offset)
    ensures Inv(Apply(h, e)) && Apply(h, e).asked[Apply(h, e).latest] == Apply(h, e).window
  {
    InvStep(h, e);
  }

  /** With such reloads, what is on screen once everything has arrived is the page the user asked for last. */
  lemma QuietScreenShowsItsWindow(deps: nat, es: seq<Event>)
    requires Run(Mount(deps), es) && FreshReloads(Mount(deps), es) && After(Mount(deps), es).out == map[]
    ensures var h := After(Mount(deps), es);
            && h.shown.Shows? && h.shown.ticket in h.asked && h.asked[h.shown.ticket] == h.window
            && h.window == Follow(Window(deps, 0), es)
  {
    ScreenFollowsTheUser(Mount(deps), es);
    InvMount(deps);
    FreshReloadsAskCurrent(Mount(deps), es);
    InvRun(Mount(deps), es);
  }

  /**
    Exactly when one reload leaves the right page behind: called on a screen at rest, and
    answered, it shows the screen's window if and only if its callback closed over the offset
    on screen. The list it asks is the one on screen whatever render the callback came from.
  */
  lemma ReloadIsRightExactlyWhenFresh(h: Hook, offset: nat, result: Result)
    requires Inv(h) && h.out == map[]
    ensures var h' := Apply(Apply(h, Reload(offset)), Arrive(h.latest + 1, result));
            && h'.out == map[] && h'.shown == Shows(h.latest + 1, result) && h'.window == h.window
            && h'.asked[h'.shown.ticket].deps == h.window.deps
            && (h'.asked[h'.shown.ticket] == h'.window <==> offset == h.window.offset)
  {
    var f := Fetch(Window(h.window.deps, offset), None);
    assert (h.out[h.latest + 1 := f] - {h.latest + 1}) == map[];
  }

  lemma {:induction false} RunAppend(h: Hook, a: seq<Event>, b: seq<Event>)
    requires Run(h, a) && Run(After(h, a), b)
    ensures Run(h, a + b) && After(h, a + b) == After(After(h, a), b)
    decreases |a|
  {
    if a == [] {
      assert a + b == b;
    } else {
      RunAppend(Apply(h, a[0]), a[1..], b);
      assert (a + b)[1..] == a[1..] + b;
    }
  }

  lemma RunTwo(h: Hook, e: Event, f: Event)
    requires Enabled(h, e) && Enabled(Apply(h, e), f)
    ensures Run(h, [e, f]) && After(h, [e, f]) == Apply(Apply(h, e), f)
  {
    var h1 := Apply(h, e);
    assert [f][1..] == [] && After(h1, [f]) == After(Apply(h1, f), []);
    assert [e, f][1..] == [f] && After(h, [e, f]) == After(h1, [f]);
  }

  /** A screen at rest moves to another window and comes to rest there. */
  lemma MovesAndRests(h: Hook, e: Event, w: Window, r: Result)
    requires Inv(h) && h.out == map[] && (e.SetOffset? || e.ChangeDeps?) && Apply(h, e) == RunEffect(h, w)
    ensures var es := [e, Arrive(h.latest + 1, r)];
            && Run(h, es)
            && var h' := After(h, es);
               Inv(h') && h'.out == map[] && h'.window == w && h'.latest == h.latest + 1 && !h'.loading
  {
    var h1 := Apply(h, e);
    InvStep(h, e);
    InvStep(h1, Arrive(h.latest + 1, r));
    RunTwo(h, e, Arrive(h.latest + 1, r));
    assert h1.out - {h.latest + 1} == map[];
  }

  lemma OpensAndRests(deps: nat, r: Result)
    ensures Run(Mount(deps), [Arrive(1, r)])
    ensures var h := After(Mount(deps), [Arrive(1, r)]);
            Inv(h) && h.out == map[] && h.window == Window(deps, 0) && h.latest == 1
  {
    var h := Mount(deps);
    assert [Arrive(1, r)][1..] == [];
    InvStep(h, Arrive(1, r));
    assert h.out - {1} == map[];
  }

  /** What a stale reload shows, on a screen at rest. */
  lemma ReloadsAndRests(h: Hook, offset: nat, r: Result)
    requires Inv(h) && h.out == map[] && !h.loading
    ensures var es := [Reload(offset), Arrive(h.latest + 1, r)];
            && Run(h, es)
            && var h' := After(h, es);
               && h'.out == map[] && !h'.loading && h'.window == h.window && h'.shown == Shows(h.latest + 1, r)
               && h.latest + 1 in h'.asked && h'.asked[h.latest + 1] == Window(h.window.deps, offset)
  {
    RunTwo(h, Reload(offset), Arrive(h.latest + 1, r));
    ReloadIsRightExactlyWhenFresh(h, offset, r);
  }

  /**
    A handler created on a later page awaits something while the user searches; its reload then
    shows that later page of the new list, a page no render asked for, under a pager on the first.
  */
  lemma StaleReloadShowsAnotherPage(deps: nat, other: nat, page: nat, r: Result)
    requires other != deps && page > 0
    ensures var es := [Arrive(1, r)] + [SetOffset(page), Arrive(2, r)] + [ChangeDeps(other), Arrive(3, r)]
                      + [Reload(page), Arrive(4, r)];
            && Run(Mount(deps), es)
            && var h := After(Mount(deps), es);
               && h.out == map[] && !h.loading && h.window == Window(other, 0)
               && h.shown == Shows(4, r) && 4 in h.asked && h.asked[4] == Window(other, page)
  {
    var es := [Arrive(1, r)];
    OpensAndRests(deps, r);
    var h := After(Mount(deps), es);
    MovesAndRests(h, SetOffset(page), Window(deps, page), r);
    RunAppend(Mount(deps), es, [SetOffset(page), Arrive(2, r)]);
    es := es + [SetOffset(page), Arrive(2, r)];
    h := After(Mount(deps), es);
    MovesAndRests(h, ChangeDeps(other), Window(other, 0), r);
    RunAppend(Mount(deps), es, [ChangeDeps(other), Arrive(3, r)]);
    es := es + [ChangeDeps(other), Arrive(3, r)];
    h := After(Mount(deps), es);
    ReloadsAndRests(h, page, r);
    RunAppend(Mount(deps), es, [Reload(page), Arrive(4, r)]);
  }

  /** Changing the inputs asks for the first page of the new list, in one fetch. */
  lemma ChangedInputsRewind(h: Hook, deps: nat)
    requires Inv(h) && deps != h.window.deps
    ensures var h' := Apply(h, ChangeDeps(deps));
            && h'.latest == h.latest + 1 && h'.asked[h'.latest] == Window(deps, 0) == h'.window
            && forall t :: t in h'.out && t !in h.out ==> t == h'.latest
  {
  }
}
