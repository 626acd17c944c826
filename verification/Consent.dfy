// The consent logic `prepare` over an arbitrary backend (crates/arod/src/location_setup.rs). Every
// backend call and every load of the cancel flag is recorded in a trace.
module Consent {
  import opened Bytes

  type Package = seq<Byte>

  // A backend call that may fail.
  datatype Reply = Yes | No | Failed

  datatype Event =
    | Checked(canceled: bool)
    | Installed(yes: bool)
    | Enabled(yes: bool)
    | Confirm(package: Package, install: bool, enable: bool, answer: Reply)
    | Install(done: Reply)
    | Enable(done: Reply)
    | Decided(package: Package, allowed: bool)

  datatype Failure = InvalidRequester | BackendFailed

  // Install and enable are the side effects; Confirm is the prompt.
  predicate IsEffect(e: Event)
  {
    e.Install? || e.Enable?
  }

  predicate IsPrompt(e: Event, package: Package)
  {
    e.Confirm? && e.package == package
  }

  predicate NameChar(c: Byte)
  {
    var letter := c as char;
    '0' <= letter <= '9' || 'A' <= letter <= 'Z' || 'a' <= letter <= 'z' || letter == '.' || letter == '_'
  }

  predicate ValidName(package: Package)
  {
    0 < |package| <= 255 && forall i :: 0 <= i < |package| ==> NameChar(package[i])
  }

  // Control characters, blanks, every ASCII sign but the dot and the underscore, and all beyond ASCII.
  predicate Foreign(c: Byte)
  {
    c < 46 || c == 47 || 58 <= c <= 64 || 91 <= c <= 94 || c == 96 || c > 122
  }

  lemma ValidNameIff(package: Package)
    ensures ValidName(package) <==> 1 <= |package| <= 255 && !exists i :: 0 <= i < |package| && Foreign(package[i])
  {
    assert forall c: Byte :: NameChar(c) <==> !Foreign(c);
  }

  // ---------- what the events of one call may be ----------

  // An accepting prompt that disclosed the effect e.
  predicate Discloses(prompt: Event, e: Event, package: Package)
  {
    && prompt.Confirm? && prompt.package == package && prompt.answer == Yes
    && (e.Install? ==> prompt.install) && (e.Enable? ==> prompt.enable)
  }

  // Each effect follows, in this call, an accepting prompt that disclosed it.
  predicate EffectsDisclosed(ev: seq<Event>, package: Package)
  {
    forall i :: 0 <= i < |ev| && IsEffect(ev[i]) ==> exists j :: 0 <= j < i && Discloses(ev[j], ev[i], package)
  }

  predicate Silent(ev: seq<Event>)
  {
    forall i :: 0 <= i < |ev| ==> !IsEffect(ev[i]) && !ev[i].Confirm?
  }

  // A cancel seen at a check ends the call.
  predicate StopsWhenCanceled(ev: seq<Event>)
  {
    forall i :: 0 <= i < |ev| && ev[i] == Checked(true) ==> i == |ev| - 1
  }

  // Decisions are recorded about this package only: a denial after a refusing prompt, a grant after
  // both states were just observed.
  predicate DecisionsFounded(ev: seq<Event>, package: Package)
  {
    && (forall i :: 0 <= i < |ev| - 1 ==> !ev[i].Decided?)
    && (ev != [] && ev[|ev| - 1].Decided? ==>
      var n := |ev| - 1;
      && ev[n].package == package
      && if ev[n].allowed then n >= 2 && ev[n - 2] == Installed(true) && ev[n - 1] == Enabled(true)
         else exists j :: 0 <= j < n && ev[j].Confirm? && ev[j].package == package && ev[j].answer == No)
  }

  // The last observations were installed and enabled.
  predicate ReadyObserved(ev: seq<Event>)
  {
    var n := if ev != [] && ev[|ev| - 1].Decided? then |ev| - 1 else |ev|;
    n >= 2 && ev[n - 2] == Installed(true) && ev[n - 1] == Enabled(true)
  }

  // The call stopped at a refusal: a cancel, a denial, a failed step or a missing service.
  predicate EndsRefused(ev: seq<Event>)
  {
    && ev != []
    && match ev[|ev| - 1]
       case Checked(canceled) => canceled
       case Installed(yes) => !yes
       case Enabled(yes) => !yes
       case Install(done) => done == No
       case Enable(done) => done == No
       case Decided(_, allowed) => !allowed
       case Confirm(_, _, _, _) => false
  }

  predicate EndsFailed(ev: seq<Event>)
  {
    && ev != []
    && var e := ev[|ev| - 1];
    (e.Confirm? && e.answer == Failed) || (e.Install? && e.done == Failed) || (e.Enable? && e.done == Failed)
  }

  // ---------- the course of a call ----------

  // What happens when nothing goes wrong and the user agrees: the prompt names what is missing, and
  // exactly that is done.
  function Granted(package: Package, installed: bool, enabled: bool): (course: seq<Event>)
  {
    [Checked(false), Installed(installed), Enabled(enabled), Confirm(package, !installed, !enabled, Yes), Checked(false)]
    + (if installed then [] else [Install(Yes)]) + [Checked(false)]
    + (if enabled then [] else [Enable(Yes)]) + [Installed(true), Enabled(true), Decided(package, true)]
  }

  // And when the user refuses.
  function Refused(package: Package, installed: bool, enabled: bool): (course: seq<Event>)
  {
    [Checked(false), Installed(installed), Enabled(enabled), Confirm(package, !installed, !enabled, No), Checked(false),
     Decided(package, false)]
  }

  // A decision of an earlier call: a grant is checked against the host, a refusal stands.
  function Recalled(allowed: bool): (course: seq<Event>)
  {
    if allowed then [Checked(false), Installed(true), Enabled(true)] else [Checked(false)]
  }

  // The answer e where the course expects c: a cancel, a failure, or a no.
  predicate Deviates(e: Event, c: Event)
  {
    match c
    case Checked(canceled) => !canceled && e == Checked(true)
    case Installed(yes) => yes && e == Installed(false)
    case Enabled(yes) => yes && e == Enabled(false)
    case Confirm(package, install, enable, answer) => answer != Failed && e == Confirm(package, install, enable, Failed)
    case Install(done) => done == Yes && (e == Install(No) || e == Install(Failed))
    case Enable(done) => done == Yes && (e == Enable(No) || e == Enable(Failed))
    case Decided(_, _) => false
  }

  // The events follow the course up to the first answer that deviates, and end there.
  predicate Follows(ev: seq<Event>, course: seq<Event>)
  {
    ev == course || Breaks(ev, course)
  }

  predicate Breaks(ev: seq<Event>, course: seq<Event>)
  {
    && 0 < |ev| <= |course|
    && var n := |ev| - 1;
    ev[..n] == course[..n] && Deviates(ev[n], course[n])
  }

  // The two states a call for a new package observed before its prompt.
  predicate SawInstalled(ev: seq<Event>)
  {
    |ev| > 1 && ev[1] == Installed(true)
  }

  predicate SawEnabled(ev: seq<Event>)
  {
    |ev| > 2 && ev[2] == Enabled(true)
  }

  // A call for a package without a decision.
  predicate NewCall(ev: seq<Event>, package: Package, r: Result<bool, Failure>)
  {
    var i, e := SawInstalled(ev), SawEnabled(ev);
    && (Follows(ev, Granted(package, i, e)) || Follows(ev, Refused(package, i, e)))
    && (r == Ok(true) <==> ev == Granted(package, i, e))
    && (r == Err(BackendFailed) <==> EndsFailed(ev))
    && r != Err(InvalidRequester)
  }

  // A call for a package with one.
  predicate KnownCall(ev: seq<Event>, allowed: bool, r: Result<bool, Failure>)
  {
    && Follows(ev, Recalled(allowed))
    && r == Ok(allowed && ev == Recalled(allowed))
  }

  // Decisions after the events ev.
  function Remember(decisions: map<Package, bool>, ev: seq<Event>): (d: map<Package, bool>)
  {
    if ev == [] then decisions
    else
      var d := Remember(decisions, ev[..|ev| - 1]);
      var e := ev[|ev| - 1];
      if e.Decided? then d[e.package := e.allowed] else d
  }

  lemma {:induction false} RememberNothing(decisions: map<Package, bool>, ev: seq<Event>)
    requires forall i :: 0 <= i < |ev| ==> !ev[i].Decided?
    ensures Remember(decisions, ev) == decisions
  {
    if ev != [] {
      RememberNothing(decisions, ev[..|ev| - 1]);
    }
  }

  lemma {:induction false} RememberAppend(d: map<Package, bool>, a: seq<Event>, b: seq<Event>)
    ensures Remember(d, a + b) == Remember(Remember(d, a), b)
    decreases |b|
  {
    if b == [] {
      assert a + b == a;
    } else {
      var n := |b| - 1;
      assert (a + b)[..|a| + n] == a + b[..n];
      RememberAppend(d, a, b[..n]);
    }
  }

  // A package with a decision in the past has one now.
  lemma {:induction false} Remembered(d: map<Package, bool>, ev: seq<Event>, i: nat)
    requires i < |ev| && ev[i].Decided?
    ensures ev[i].package in Remember(d, ev)
    decreases |ev|
  {
    if i < |ev| - 1 {
      Remembered(d, ev[..|ev| - 1], i);
    }
  }

  // ---------- a call in progress ----------

  predicate Going(ev: seq<Event>, package: Package)
  {
    && EffectsDisclosed(ev, package)
    && forall i :: 0 <= i < |ev| ==>
      ev[i] != Checked(true) && !ev[i].Decided? && (ev[i].Confirm? ==> ev[i].package == package)
  }

  // The events of a finished call.
  predicate Finished(ev: seq<Event>, package: Package)
  {
    && EffectsDisclosed(ev, package) && StopsWhenCanceled(ev) && DecisionsFounded(ev, package)
    && forall i :: 0 <= i < |ev| && ev[i].Confirm? ==> ev[i].package == package
  }

  lemma GoOn(base: seq<Event>, ev: seq<Event>, e: Event, package: Package)
    requires Going(ev, package) && e != Checked(true) && !e.Decided? && (e.Confirm? ==> e.package == package)
    requires IsEffect(e) ==> exists j :: 0 <= j < |ev| && Discloses(ev[j], e, package)
    ensures Going(ev + [e], package) && base + ev + [e] == base + (ev + [e])
  {
    var ev' := ev + [e];
    forall i | 0 <= i < |ev'| && IsEffect(ev'[i])
      ensures exists j :: 0 <= j < i && Discloses(ev'[j], ev'[i], package)
    {
      if i < |ev| {
        var j :| 0 <= j < i && Discloses(ev[j], ev[i], package);
        assert Discloses(ev'[j], ev'[i], package);
      } else {
        var j :| 0 <= j < |ev| && Discloses(ev[j], e, package);
        assert Discloses(ev'[j], ev'[i], package);
      }
    }
  }

  lemma NothingDone(package: Package, d: map<Package, bool>)
    ensures Going([], package) && Finished([], package) && Silent([]) && Remember(d, []) == d
  {
  }

  lemma Ended(ev: seq<Event>, package: Package, d: map<Package, bool>)
    requires Going(ev, package)
    ensures Finished(ev, package) && Remember(d, ev) == d
  {
    RememberNothing(d, ev);
  }

  lemma EndedByCancel(base: seq<Event>, ev: seq<Event>, package: Package, d: map<Package, bool>)
    requires Going(ev, package)
    ensures base + ev + [Checked(true)] == base + (ev + [Checked(true)])
    ensures Finished(ev + [Checked(true)], package) && Remember(d, ev + [Checked(true)]) == d
  {
    GoOn(base, ev, Checked(false), package);
    var a, b := ev + [Checked(false)], ev + [Checked(true)];
    forall i | 0 <= i < |b| && IsEffect(b[i])
      ensures exists j :: 0 <= j < i && Discloses(b[j], b[i], package)
    {
      var j :| 0 <= j < i && Discloses(a[j], a[i], package);
      assert b[j] == a[j];
    }
    RememberNothing(d, b);
  }

  lemma EndedByDecision(base: seq<Event>, ev: seq<Event>, package: Package, allowed: bool, d: map<Package, bool>)
    requires Going(ev, package)
    requires if allowed then |ev| >= 2 && ev[|ev| - 2] == Installed(true) && ev[|ev| - 1] == Enabled(true)
             else exists j :: 0 <= j < |ev| && ev[j].Confirm? && ev[j].package == package && ev[j].answer == No
    ensures var b := ev + [Decided(package, allowed)];
            && base + ev + [Decided(package, allowed)] == base + b
            && Finished(b, package) && Remember(d, b) == d[package := allowed]
            && (allowed ==> ReadyObserved(b))
  {
    var a, b := ev + [Checked(false)], ev + [Decided(package, allowed)];
    GoOn(base, ev, Checked(false), package);
    forall i | 0 <= i < |b| && IsEffect(b[i])
      ensures exists j :: 0 <= j < i && Discloses(b[j], b[i], package)
    {
      var j :| 0 <= j < i && Discloses(a[j], a[i], package);
      assert b[j] == a[j];
    }
    if !allowed {
      var j :| 0 <= j < |ev| && ev[j].Confirm? && ev[j].package == package && ev[j].answer == No;
      assert b[j] == ev[j];
    }
    assert b[..|ev|] == ev;
    RememberNothing(d, ev);
  }

  // ---------- staying on course ----------

  lemma EndsNew(ev: seq<Event>, e: Event, package: Package, installed: bool, enabled: bool)
    requires 3 <= |ev| < |Granted(package, installed, enabled)| && ev <= Granted(package, installed, enabled)
    requires Deviates(e, Granted(package, installed, enabled)[|ev|])
    ensures NewCall(ev + [e], package, if EndsFailed([e]) then Err(BackendFailed) else Ok(false))
  {
    var g := Granted(package, installed, enabled);
    Ahead(package, installed, enabled);
    assert ev[1] == g[..5][1] && ev[2] == g[..5][2];
    EndsOn(ev, e, g);
    hide Granted, Refused, Breaks, Deviates;
  }

  lemma EndsOn(ev: seq<Event>, e: Event, course: seq<Event>)
    requires |ev| < |course| && ev <= course && Deviates(e, course[|ev|])
    ensures Breaks(ev + [e], course) && ev + [e] != course
    ensures EndsFailed(ev + [e]) == EndsFailed([e])
  {
    assert (ev + [e])[..|ev|] == ev;
    assert e != course[|ev|];
  }

  lemma EndsGranted(package: Package, installed: bool, enabled: bool)
    ensures NewCall(Granted(package, installed, enabled), package, Ok(true))
  {
  }

  lemma EndsRefusing(ev: seq<Event>, package: Package, installed: bool, enabled: bool)
    requires ev == [Checked(false), Installed(installed), Enabled(enabled), Confirm(package, !installed, !enabled, No),
                    Checked(false)]
    ensures NewCall(ev + [Decided(package, false)], package, Ok(false))
  {
    assert ev + [Decided(package, false)] == Refused(package, installed, enabled);
  }

  // A cancel seen right after the prompt, whatever the answer.
  lemma EndsHere(ev: seq<Event>, package: Package, installed: bool, enabled: bool)
    requires |ev| == 4 && ev[..3] == [Checked(false), Installed(installed), Enabled(enabled)]
    requires ev[3] == Confirm(package, !installed, !enabled, Yes) || ev[3] == Confirm(package, !installed, !enabled, No)
    ensures NewCall(ev + [Checked(true)], package, Ok(false))
  {
    var all := ev + [Checked(true)];
    var course := if ev[3].answer == Yes then Granted(package, installed, enabled) else Refused(package, installed, enabled);
    assert ev[0] == ev[..3][0] && ev[1] == ev[..3][1] && ev[2] == ev[..3][2];
    assert all[..4] == course[..4] && Deviates(all[4], course[4]);
    assert all[4] != course[4];
  }

  lemma EndsAtOnce(package: Package)
    ensures NewCall([Checked(true)], package, Ok(false))
    ensures forall allowed :: KnownCall([Checked(true)], allowed, Ok(false))
  {
    assert Breaks([Checked(true)], Granted(package, false, false));
    forall allowed: bool
      ensures KnownCall([Checked(true)], allowed, Ok(false))
    {
      assert Breaks([Checked(true)], Recalled(allowed));
    }
  }

  lemma BreakEnds(ev: seq<Event>, course: seq<Event>)
    requires Breaks(ev, course)
    ensures EndsRefused(ev) != EndsFailed(ev)
  {
  }

  lemma CoursesEnd(package: Package, installed: bool, enabled: bool)
    ensures ReadyObserved(Granted(package, installed, enabled)) && !EndsFailed(Granted(package, installed, enabled))
    ensures EndsRefused(Refused(package, installed, enabled)) && !EndsFailed(Refused(package, installed, enabled))
  {
  }

  // How the end of a new call shows in its result.
  lemma EndOf(ev: seq<Event>, package: Package, r: Result<bool, Failure>)
    requires NewCall(ev, package, r)
    ensures r == Ok(true) ==> ReadyObserved(ev)
    ensures r == Ok(false) ==> EndsRefused(ev)
    ensures r == Err(BackendFailed) ==> EndsFailed(ev)
    ensures r != Err(InvalidRequester)
  {
    hide Granted, Refused, Breaks, EndsRefused, EndsFailed, ReadyObserved;
    var i, e := SawInstalled(ev), SawEnabled(ev);
    CoursesEnd(package, i, e);
    if Breaks(ev, Granted(package, i, e)) {
      BreakEnds(ev, Granted(package, i, e));
    } else if Breaks(ev, Refused(package, i, e)) {
      BreakEnds(ev, Refused(package, i, e));
    }
  }

  // The rest of a granted course after its first k events.
  lemma Ahead(package: Package, installed: bool, enabled: bool)
    ensures var g := Granted(package, installed, enabled);
            var a := if installed then 5 else 6;
            var b := if enabled then a + 1 else a + 2;
            && |g| == b + 3
            && g[..5] == [Checked(false), Installed(installed), Enabled(enabled),
                          Confirm(package, !installed, !enabled, Yes), Checked(false)]
            && (!installed ==> g[5] == Install(Yes)) && g[a] == Checked(false)
            && (!enabled ==> g[a + 1] == Enable(Yes))
            && g[b] == Installed(true) && g[b + 1] == Enabled(true) && g[b + 2] == Decided(package, true)
  {
  }

  lemma NextOn(ev: seq<Event>, e: Event, course: seq<Event>)
    requires ev <= course && |ev| < |course| && course[|ev|] == e
    ensures ev + [e] <= course
  {
  }

  // ---------- the whole history ----------

  // A denied package is never prompted again, nor is its denial ever replaced.
  ghost predicate DenialsLast(trace: seq<Event>)
  {
    forall i, j :: 0 <= i < j < |trace| && trace[i].Decided? && !trace[i].allowed ==>
      && !IsPrompt(trace[j], trace[i].package)
      && !(trace[j].Decided? && trace[j].package == trace[i].package)
  }

  lemma HistoryGrows(trace: seq<Event>, ev: seq<Event>, package: Package, decisions: map<Package, bool>)
    requires DenialsLast(trace) && decisions == Remember(map[], trace) && Finished(ev, package)
    requires package in decisions ==> Silent(ev) && forall i :: 0 <= i < |ev| ==> !ev[i].Decided?
    ensures DenialsLast(trace + ev) && Remember(map[], trace + ev) == Remember(decisions, ev)
  {
    RememberAppend(map[], trace, ev);
    var all := trace + ev;
    assert forall k :: |trace| <= k < |all| ==> all[k] == ev[k - |trace|];
    forall i, j | 0 <= i < j < |all| && all[i].Decided? && !all[i].allowed
      ensures !IsPrompt(all[j], all[i].package) && !(all[j].Decided? && all[j].package == all[i].package)
    {
      if i < |trace| {
        Remembered(map[], trace, i);
      }
    }
  }

  // ---------- prepare ----------

  class Setup {
    var decisions: map<Package, bool>
    var trace: seq<Event>

    constructor ()
      ensures decisions == map[] && trace == [] && Valid()
    {
      decisions, trace := map[], [];
    }

    ghost predicate Valid()
      reads this
    {
      decisions == Remember(map[], trace) && DenialsLast(trace)
    }

    // Backend answers and the cancel flag may be anything at any time.
    method Load() returns (b: bool)
      modifies this`trace
      ensures trace == old(trace) + [Checked(b)]
    {
      b := *;
      trace := trace + [Checked(b)];
    }

    method AskInstalled() returns (b: bool)
      modifies this`trace
      ensures trace == old(trace) + [Installed(b)]
    {
      b := *;
      trace := trace + [Installed(b)];
    }

    method AskEnabled() returns (b: bool)
      modifies this`trace
      ensures trace == old(trace) + [Enabled(b)]
    {
      b := *;
      trace := trace + [Enabled(b)];
    }

    method DoConfirm(package: Package, install: bool, enable: bool) returns (r: Reply)
      modifies this`trace
      ensures trace == old(trace) + [Confirm(package, install, enable, r)]
    {
      r := *;
      trace := trace + [Confirm(package, install, enable, r)];
    }

    method DoInstall() returns (r: Reply)
      modifies this`trace
      ensures trace == old(trace) + [Install(r)]
    {
      r := *;
      trace := trace + [Install(r)];
    }

    method DoEnable() returns (r: Reply)
      modifies this`trace
      ensures trace == old(trace) + [Enable(r)]
    {
      r := *;
      trace := trace + [Enable(r)];
    }

    method Decide(package: Package, allowed: bool)
      modifies this
      ensures trace == old(trace) + [Decided(package, allowed)] && decisions == old(decisions)[package := allowed]
    {
      decisions := decisions[package := allowed];
      trace := trace + [Decided(package, allowed)];
    }

    // `backend.installed() && backend.enabled()`, short-circuiting.
    method ObserveReady(ghost base: seq<Event>, ghost ev: seq<Event>, package: Package)
        returns (ready: bool, ghost ev': seq<Event>)
      requires Going(ev, package) && trace == base + ev
      modifies this`trace
      ensures ev <= ev' && trace == base + ev'
      ensures Going(ev', package)
      ensures !ready ==> EndsRefused(ev')
      ensures ready ==> ev' == ev + [Installed(true)] + [Enabled(true)]
      ensures !ready ==> ev' == ev + [Installed(false)] || ev' == ev + [Installed(true)] + [Enabled(false)]
      ensures forall i :: |ev| <= i < |ev'| ==> ev'[i].Installed? || ev'[i].Enabled?
    {
      ready := AskInstalled();
      GoOn(base, ev, Installed(ready), package);
      ev' := ev + [Installed(ready)];
      if ready {
        ready := AskEnabled();
        GoOn(base, ev', Enabled(ready), package);
        ev' := ev' + [Enabled(ready)];
      }
    }

    // A request that is new: prompt, install, enable, as far as it gets.
    method Ask(package: Package, ghost base: seq<Event>, ghost start: seq<Event>)
        returns (r: Result<bool, Failure>, ghost ev: seq<Event>)
      requires Going(start, package) && trace == base + start && start == [Checked(false)]
      modifies this
      ensures trace == base + ev
      ensures Finished(ev, package) && NewCall(ev, package, r)
      ensures decisions == Remember(old(decisions), ev)
    {
      hide Going, Finished, Remember, ReadyObserved, NewCall, Granted, Refused;
      ev := start;
      var installed := AskInstalled();
      GoOn(base, ev, Installed(installed), package);
      ev := ev + [Installed(installed)];
      var enabled := AskEnabled();
      GoOn(base, ev, Enabled(enabled), package);
      ev := ev + [Enabled(enabled)];
      ghost var g := Granted(package, installed, enabled);
      Ahead(package, installed, enabled);
      assert ev == g[..5][..3];
      var accepted := DoConfirm(package, !installed, !enabled);
      ghost var prompt := Confirm(package, !installed, !enabled, accepted);
      GoOn(base, ev, prompt, package);
      if accepted == Failed {
        EndsNew(ev, prompt, package, installed, enabled);
      }
      ev := ev + [prompt];
      if accepted == Failed {
        Ended(ev, package, old(decisions));
        return Err(BackendFailed), ev;
      }
      r, ev := Heed(package, installed, enabled, accepted, base, ev);
    }

    // The answer to the prompt counts only if the call was not cancelled meanwhile.
    method Heed(package: Package, installed: bool, enabled: bool, accepted: Reply, ghost base: seq<Event>,
                ghost start: seq<Event>)
        returns (r: Result<bool, Failure>, ghost ev: seq<Event>)
      requires Going(start, package) && trace == base + start && accepted != Failed
      requires start == [Checked(false), Installed(installed), Enabled(enabled),
                         Confirm(package, !installed, !enabled, accepted)]
      modifies this
      ensures trace == base + ev
      ensures Finished(ev, package) && NewCall(ev, package, r)
      ensures decisions == Remember(old(decisions), ev)
    {
      hide Going, Finished, Remember, NewCall, Granted, Refused, Deviates;
      ev := start;
      ghost var prompt, at := start[3], 3;
      Ahead(package, installed, enabled);
      var canceled := Load();
      if canceled {
        EndedByCancel(base, ev, package, old(decisions));
        EndsHere(ev, package, installed, enabled);
        return Ok(false), ev + [Checked(true)];
      }
      GoOn(base, ev, Checked(false), package);
      ev := ev + [Checked(false)];
      if accepted == No {
        assert ev[at] == prompt;
        Decide(package, false);
        EndedByDecision(base, ev, package, false, old(decisions));
        EndsRefusing(ev, package, installed, enabled);
        return Ok(false), ev + [Decided(package, false)];
      }
      assert ev == Granted(package, installed, enabled)[..5];
      r, ev := CarryOut(package, installed, enabled, base, ev, at);
    }

    // After consent: install and enable what was disclosed at ev[at], then look again.
    method CarryOut(package: Package, installed: bool, enabled: bool, ghost base: seq<Event>,
                    ghost start: seq<Event>, ghost at: nat)
        returns (r: Result<bool, Failure>, ghost ev: seq<Event>)
      requires Going(start, package) && trace == base + start
      requires at < |start| && start[at] == Confirm(package, !installed, !enabled, Yes)
      requires |start| == 5 && start <= Granted(package, installed, enabled)
      modifies this
      ensures trace == base + ev
      ensures Finished(ev, package) && NewCall(ev, package, r)
      ensures decisions == Remember(old(decisions), ev)
    {
      hide Going, Finished, Remember, ReadyObserved, NewCall, Granted;
      ev := start;
      ghost var g := Granted(package, installed, enabled);
      Ahead(package, installed, enabled);
      if !installed {
        var done := DoInstall();
        assert Discloses(ev[at], Install(done), package);
        GoOn(base, ev, Install(done), package);
        if done != Yes {
          EndsNew(ev, Install(done), package, installed, enabled);
          ev := ev + [Install(done)];
          Ended(ev, package, old(decisions));
          return if done == Failed then Err(BackendFailed) else Ok(false), ev;
        }
        NextOn(ev, Install(Yes), g);
        ev := ev + [Install(Yes)];
      }
      var canceled := Load();
      if canceled {
        EndedByCancel(base, ev, package, old(decisions));
        EndsNew(ev, Checked(true), package, installed, enabled);
        return Ok(false), ev + [Checked(true)];
      }
      GoOn(base, ev, Checked(false), package);
      NextOn(ev, Checked(false), g);
      ev := ev + [Checked(false)];
      if !enabled {
        var done := DoEnable();
        assert Discloses(ev[at], Enable(done), package);
        GoOn(base, ev, Enable(done), package);
        if done != Yes {
          EndsNew(ev, Enable(done), package, installed, enabled);
          ev := ev + [Enable(done)];
          Ended(ev, package, old(decisions));
          return if done == Failed then Err(BackendFailed) else Ok(false), ev;
        }
        NextOn(ev, Enable(Yes), g);
        ev := ev + [Enable(Yes)];
      }
      r, ev := LookAgain(package, installed, enabled, base, ev);
    }

    // What was installed and enabled is looked at again; only then the grant is remembered.
    method LookAgain(package: Package, ghost installed: bool, ghost enabled: bool, ghost base: seq<Event>,
                     ghost start: seq<Event>)
        returns (r: Result<bool, Failure>, ghost ev: seq<Event>)
      requires Going(start, package) && trace == base + start
      requires |start| == |Granted(package, installed, enabled)| - 3 && start <= Granted(package, installed, enabled)
      modifies this
      ensures trace == base + ev
      ensures Finished(ev, package) && NewCall(ev, package, r)
      ensures decisions == Remember(old(decisions), ev)
    {
      hide Going, Finished, Remember, ReadyObserved, NewCall, Granted;
      ghost var g := Granted(package, installed, enabled);
      Ahead(package, installed, enabled);
      var ready;
      ready, ev := ObserveReady(base, start, package);
      if ready {
        NextOn(start, Installed(true), g);
        NextOn(start + [Installed(true)], Enabled(true), g);
        assert ev + [Decided(package, true)] == g;
        EndsGranted(package, installed, enabled);
        Decide(package, true);
        EndedByDecision(base, ev, package, true, old(decisions));
        return Ok(true), ev + [Decided(package, true)];
      }
      if ev == start + [Installed(false)] {
        EndsNew(start, Installed(false), package, installed, enabled);
      } else {
        NextOn(start, Installed(true), g);
        EndsNew(start + [Installed(true)], Enabled(false), package, installed, enabled);
      }
      Ended(ev, package, old(decisions));
      return Ok(false), ev;
    }

    // `*allowed && backend.installed() && backend.enabled()` of a remembered decision.
    method Decision(package: Package, ghost base: seq<Event>, ghost start: seq<Event>)
        returns (ready: bool, ghost ev: seq<Event>)
      requires package in decisions && Going(start, package) && trace == base + start
      requires start == [Checked(false)]
      modifies this`trace
      ensures trace == base + ev && Finished(ev, package) && Remember(decisions, ev) == decisions
      ensures Silent(ev) && forall i :: 0 <= i < |ev| ==> !ev[i].Decided?
      ensures ready ==> decisions[package] && ReadyObserved(ev)
      ensures !ready ==> !decisions[package] || EndsRefused(ev)
      ensures KnownCall(ev, decisions[package], Ok(ready))
    {
      hide Going, Finished, Remember;
      ev := start;
      ready := decisions[package];
      if ready {
        ready, ev := ObserveReady(base, ev, package);
      }
      Ended(ev, package, decisions);
    }

    // One request for package; ev are the events of this call.
    method Prepare(package: Package) returns (r: Result<bool, Failure>, ghost ev: seq<Event>)
      requires Valid()
      modifies this
      ensures Valid() && trace == old(trace) + ev && decisions == Remember(old(decisions), ev)
      ensures EffectsDisclosed(ev, package) && StopsWhenCanceled(ev) && DecisionsFounded(ev, package)
      ensures r == Ok(true) ==> ReadyObserved(ev)
      ensures r == Ok(false) ==> EndsRefused(ev) || (package in old(decisions) && !old(decisions)[package])
      ensures r == Err(BackendFailed) ==> EndsFailed(ev)
      ensures package in old(decisions) ==> Silent(ev) && decisions == old(decisions)
      ensures package in old(decisions) && !old(decisions)[package] && r.Ok? ==> r == Ok(false)
      // The events are those of the call's course, up to the first answer that deviates from it.
      ensures ValidName(package) && package !in old(decisions) ==> NewCall(ev, package, r)
      ensures ValidName(package) && package in old(decisions) ==> KnownCall(ev, old(decisions)[package], r)
      ensures r == Err(InvalidRequester) <==> !ValidName(package)
      ensures r == Err(InvalidRequester) <==>
                |package| == 0 || |package| > 255 || exists i :: 0 <= i < |package| && Foreign(package[i])
      ensures !ValidName(package) ==> ev == []
    {
      hide Going, EffectsDisclosed, StopsWhenCanceled, DecisionsFounded, ReadyObserved, Remember, DenialsLast;
      hide NewCall;
      ValidNameIff(package);
      ghost var base := trace;
      ev := [];
      if !ValidName(package) {
        assert base + ev == base;
        NothingDone(package, decisions);
        return Err(InvalidRequester), ev;
      }
      assert base + [] == base;
      var canceled := Load();
      if canceled {
        ev := [] + [Checked(true)];
        EndedByCancel(base, [], package, decisions);
        EndsAtOnce(package);
        assert ev == [Checked(true)];
        HistoryGrows(old(trace), ev, package, decisions);
        return Ok(false), ev;
      }
      GoOn(base, [], Checked(false), package);
      ev := [] + [Checked(false)];
      if package in decisions {
        var ready;
        ready, ev := Decision(package, base, ev);
        HistoryGrows(old(trace), ev, package, decisions);
        return Ok(ready), ev;
      }
      r, ev := Ask(package, base, ev);
      EndOf(ev, package, r);
      HistoryGrows(old(trace), ev, package, old(decisions));
    }
  }
}
