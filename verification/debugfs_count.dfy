/** Runs of the debugfs root and its reference count. */
module DebugfsCount {
  import opened CharRegistry

  /**
   A driver or misc device registers, with the root creatable or not, or unregisters; or a
   driver that is not registered is unregistered.
   */
  datatype Event = Registered(ok: bool) | Unregistered | Strayed

  /** `live` counts the registered drivers and misc devices. */
  datatype State = State(root: bool, refcnt: nat, live: nat)

  function Apply(s: State, e: Event): State {
    match e
    case Registered(ok) => var (root, refcnt) := Enter(s.root, s.refcnt, ok); State(root, refcnt, s.live + 1)
    case Unregistered =>
      if s.live == 0 then s else var (root, refcnt) := Leave(s.root, s.refcnt); State(root, refcnt, s.live - 1)
    case Strayed => var (root, refcnt) := Leave(s.root, s.refcnt); State(root, refcnt, s.live)
  }

  function Run(es: seq<Event>): State {
    if es == [] then State(false, 0, 0) else Apply(Run(es[..|es| - 1]), es[|es| - 1])
  }

  /** In every run the root exists exactly while its count is positive. */
  lemma {:induction false} RootIffCounted(es: seq<Event>)
    ensures Run(es).root <==> Run(es).refcnt > 0
    ensures Run(es).refcnt <= Run(es).live
  {
    if es != [] {
      RootIffCounted(es[..|es| - 1]);
    }
  }

  /** The root cannot be created, or a use is given back that was not taken. */
  predicate Skews(s: State, e: Event) {
    (e == Registered(false) && s.refcnt == 0) || (e == Strayed && s.refcnt > 0)
  }

  ghost predicate NeverSkewed(es: seq<Event>) {
    forall i :: 0 <= i < |es| ==> !Skews(Run(es[..i]), es[i])
  }

  ghost predicate CountsLive(es: seq<Event>) {
    forall i :: 0 <= i <= |es| ==> Run(es[..i]).refcnt == Run(es[..i]).live
  }

  lemma RunSnoc(es: seq<Event>, i: nat)
    requires i < |es|
    ensures Run(es[..i + 1]) == Apply(Run(es[..i]), es[i])
  {
    assert es[..i + 1][..i] == es[..i];
  }

  lemma {:induction false} CountsUpTo(es: seq<Event>, i: nat)
    requires NeverSkewed(es) && i <= |es|
    ensures Run(es[..i]).refcnt == Run(es[..i]).live
  {
    if i > 0 {
      CountsUpTo(es, i - 1);
      RunSnoc(es, i - 1);
      RootIffCounted(es[..i - 1]);
    }
  }

  /**
   The count is that of the registered drivers and misc devices throughout a run exactly
   if creation never fails in it and only registered drivers are unregistered.
   */
  lemma CountExactIff(es: seq<Event>)
    ensures CountsLive(es) <==> NeverSkewed(es)
  {
    if NeverSkewed(es) {
      forall i | 0 <= i <= |es|
        ensures Run(es[..i]).refcnt == Run(es[..i]).live
      {
        CountsUpTo(es, i);
      }
    }
    if CountsLive(es) {
      forall i | 0 <= i < |es|
        ensures !Skews(Run(es[..i]), es[i])
      {
        RunSnoc(es, i);
        assert Run(es[..i + 1]).refcnt == Run(es[..i + 1]).live;
      }
    }
  }

  /** After a failed creation, the root can vanish under a driver that is still registered. */
  lemma RootCanVanish()
    ensures var s := Run([Registered(false), Registered(true), Unregistered]); s.live == 1 && !s.root
  {
    var es := [Registered(false), Registered(true), Unregistered];
    assert es[..0] == [];
    RunSnoc(es, 0);
    RunSnoc(es, 1);
    RunSnoc(es, 2);
    assert es[..3] == es;
  }
}
