/** Exits, spawns and the registry audit (sink.rs, audit.rs, state.rs, host.rs, command/audit.rs):
    several threads share one dispatcher lock, two registries and the set of exits in flight. */
module ExitAudit {
  import opened Bytes

  // ----- the judgement itself -----

  datatype TabRef = TabRef(tab: nat, session: nat)

  datatype RegistryAudit = RegistryAudit(orphanSessions: seq<nat>, orphanSinks: seq<nat>, dangling: seq<TabRef>)

  /** A tab whose session lacks either half is dangling and does not count as a reference. */
  function Dangling(refs: seq<TabRef>, sessions: set<nat>, sinks: set<nat>): seq<TabRef> {
    if refs == [] then []
    else (if refs[0].session in sessions && refs[0].session in sinks then [] else [refs[0]])
         + Dangling(refs[1..], sessions, sinks)
  }

  function Referenced(refs: seq<TabRef>, sessions: set<nat>, sinks: set<nat>): set<nat> {
    set i | 0 <= i < |refs| && refs[i].session in sessions && refs[i].session in sinks :: refs[i].session
  }

  function Without(ids: seq<nat>, gone: set<nat>): seq<nat> {
    if ids == [] then [] else (if ids[0] in gone then [] else [ids[0]]) + Without(ids[1..], gone)
  }

  function Ids(s: seq<nat>): set<nat> { set id | id in s }

  function Judge(refs: seq<TabRef>, sessionIds: seq<nat>, sinkIds: seq<nat>, exiting: set<nat>): RegistryAudit {
    var sessions, sinks := Ids(sessionIds), Ids(sinkIds);
    var referenced := Referenced(refs, sessions, sinks);
    RegistryAudit(Without(Without(sessionIds, referenced), exiting), Without(Without(sinkIds, referenced), exiting),
                  Dangling(refs, sessions, sinks))
  }

  /** What an exit event does to the model: every tab on that session lets go of it. */
  function LetGo(refs: seq<TabRef>, gone: set<nat>): seq<TabRef> {
    if refs == [] then [] else (if refs[0].session in gone then [] else [refs[0]]) + LetGo(refs[1..], gone)
  }

  function Sessions(refs: seq<TabRef>): set<nat> { set i | 0 <= i < |refs| :: refs[i].session }

  lemma {:induction false} WithoutMembers(ids: seq<nat>, gone: set<nat>)
    ensures forall id :: id in Without(ids, gone) <==> id in ids && id !in gone
  {
    if ids != [] {
      WithoutMembers(ids[1..], gone);
      assert ids == [ids[0]] + ids[1..];
    }
  }

  lemma {:induction false} DanglingMembers(refs: seq<TabRef>, sessions: set<nat>, sinks: set<nat>)
    ensures forall r :: r in Dangling(refs, sessions, sinks) <==> r in refs && !(r.session in sessions && r.session in sinks)
  {
    if refs != [] {
      DanglingMembers(refs[1..], sessions, sinks);
      assert refs == [refs[0]] + refs[1..];
    }
  }

  lemma {:induction false} LetGoMembers(refs: seq<TabRef>, gone: set<nat>)
    ensures forall r :: r in LetGo(refs, gone) <==> r in refs && r.session !in gone
  {
    if refs != [] {
      LetGoMembers(refs[1..], gone);
      assert refs == [refs[0]] + refs[1..];
    }
  }

  /** The orphans on one side: registered there, no exit in flight, and not a session that
      both sides have and some tab holds. */
  function Orphans(mine: set<nat>, other: set<nat>, held: set<nat>, exiting: set<nat>): set<nat> {
    set id | id in mine && id !in exiting && (id in other ==> id !in held)
  }

  /** What each bucket of the judgement holds. */
  lemma JudgeMeaning(refs: seq<TabRef>, sessionIds: seq<nat>, sinkIds: seq<nat>, exiting: set<nat>)
    ensures var a := Judge(refs, sessionIds, sinkIds, exiting);
            && (forall r :: r in a.dangling <==> r in refs && (r.session !in sessionIds || r.session !in sinkIds))
            && Ids(a.orphanSessions) == Orphans(Ids(sessionIds), Ids(sinkIds), Sessions(refs), exiting)
            && Ids(a.orphanSinks) == Orphans(Ids(sinkIds), Ids(sessionIds), Sessions(refs), exiting)
  {
    var sessions, sinks := Ids(sessionIds), Ids(sinkIds);
    var referenced := Referenced(refs, sessions, sinks);
    DanglingMembers(refs, sessions, sinks);
    WithoutMembers(sessionIds, referenced);
    WithoutMembers(Without(sessionIds, referenced), exiting);
    WithoutMembers(sinkIds, referenced);
    WithoutMembers(Without(sinkIds, referenced), exiting);
    assert forall id :: id in referenced <==> id in sessions && id in sinks && id in Sessions(refs);
  }

  lemma ReferencedNone(sessions: set<nat>, sinks: set<nat>)
    ensures Referenced([], sessions, sinks) == {}
  {
  }

  lemma ReferencedSnoc(refs: seq<TabRef>, r: TabRef, sessions: set<nat>, sinks: set<nat>)
    ensures Referenced(refs + [r], sessions, sinks)
         == Referenced(refs, sessions, sinks) + (if r.session in sessions && r.session in sinks then {r.session} else {})
  {
    var all := refs + [r];
    assert all[|refs|] == r;
    forall id | id in Referenced(refs, sessions, sinks) ensures id in Referenced(all, sessions, sinks) {
      var i :| 0 <= i < |refs| && refs[i].session in sessions && refs[i].session in sinks && refs[i].session == id;
      assert all[i] == refs[i];
    }
  }

  lemma DanglingFrom(refs: seq<TabRef>, i: nat, sessions: set<nat>, sinks: set<nat>)
    requires i < |refs|
    ensures Dangling(refs[i..], sessions, sinks) ==
              (if refs[i].session in sessions && refs[i].session in sinks then [] else [refs[i]]) + Dangling(refs[i + 1..], sessions, sinks)
  {
    assert refs[i..][1..] == refs[i + 1..];
  }

  lemma DanglingNone(refs: seq<TabRef>, sessions: set<nat>, sinks: set<nat>)
    requires refs == []
    ensures Dangling(refs, sessions, sinks) == []
  {
  }

  /** One pass over the tabs: the sessions that count as referenced, and the tabs that dangle. */
  method Split(refs: seq<TabRef>, sessions: set<nat>, sinks: set<nat>)
    returns (referenced: set<nat>, dangling: seq<TabRef>)
    ensures referenced == Referenced(refs, sessions, sinks)
    ensures dangling == Dangling(refs, sessions, sinks)
  {
    hide Referenced, Dangling;
    ReferencedNone(sessions, sinks);
    referenced, dangling := {}, [];
    assert refs[0..] == refs;
    for i := 0 to |refs|
      invariant referenced == Referenced(refs[..i], sessions, sinks)
      invariant dangling + Dangling(refs[i..], sessions, sinks) == Dangling(refs, sessions, sinks)
    {
      var r := refs[i];
      DanglingFrom(refs, i, sessions, sinks);
      assert refs[..i + 1] == refs[..i] + [r];
      ReferencedSnoc(refs[..i], r, sessions, sinks);
      if r.session !in sessions || r.session !in sinks {
        Assoc(dangling, [r], Dangling(refs[i + 1..], sessions, sinks));
        dangling := dangling + [r];
      } else {
        referenced := referenced + {r.session};
      }
    }
    assert refs[..|refs|] == refs;
    DanglingNone(refs[|refs|..], sessions, sinks);
  }

  lemma {:induction false} WithoutNothing(ids: seq<nat>)
    ensures Without(ids, {}) == ids
  {
    if ids != [] {
      WithoutNothing(ids[1..]);
    }
  }

  lemma WithoutFrom(ids: seq<nat>, i: nat, gone: set<nat>)
    requires i < |ids|
    ensures Without(ids[i..], gone) == (if ids[i] in gone then Without(ids[i + 1..], gone) else [ids[i]] + Without(ids[i + 1..], gone))
  {
    assert ids[i..][1..] == ids[i + 1..];
  }

  lemma WithoutNone(ids: seq<nat>, gone: set<nat>)
    requires ids == []
    ensures Without(ids, gone) == []
  {
  }

  method Retain(ids: seq<nat>, gone: set<nat>) returns (kept: seq<nat>)
    ensures kept == Without(ids, gone)
  {
    hide Without;
    kept := [];
    assert ids[0..] == ids;
    for i := 0 to |ids|
      invariant kept + Without(ids[i..], gone) == Without(ids, gone)
    {
      WithoutFrom(ids, i, gone);
      if ids[i] !in gone {
        Assoc(kept, [ids[i]], Without(ids[i + 1..], gone));
        kept := kept + [ids[i]];
      }
    }
    WithoutNone(ids[|ids|..], gone);
  }

  /** `audit_registries` and the two `retain` calls after it. */
  method AuditRegistries(refs: seq<TabRef>, sessionIds: seq<nat>, sinkIds: seq<nat>, exiting: set<nat>)
    returns (audit: RegistryAudit)
    ensures audit == Judge(refs, sessionIds, sinkIds, exiting)
  {
    var sessions, sinks := Ids(sessionIds), Ids(sinkIds);
    var referenced, dangling := Split(refs, sessions, sinks);
    var orphanSessions := Retain(sessionIds, referenced);
    var orphanSinks := Retain(sinkIds, referenced);
    if exiting != {} {
      orphanSessions := Retain(orphanSessions, exiting);
      orphanSinks := Retain(orphanSinks, exiting);
    } else {
      WithoutNothing(orphanSessions);
      WithoutNothing(orphanSinks);
    }
    audit := RegistryAudit(orphanSessions, orphanSinks, dangling);
  }

  method Least(s: set<nat>) returns (m: nat)
    requires s != {}
    ensures m in s && forall x :: x in s ==> m <= x
  {
    m :| m in s;
    var left := s - {m};
    while left != {}
      invariant left <= s && m in s && forall x :: x in s && x !in left ==> m <= x
      decreases left
    {
      var x :| x in left;
      left := left - {x};
      if x < m {
        m := x;
      }
    }
  }

  /** Ids of a registry, ascending. */
  method SortedIds(registry: set<nat>) returns (ids: seq<nat>)
    ensures Ids(ids) == registry
    ensures forall i, j :: 0 <= i < j < |ids| ==> ids[i] < ids[j]
  {
    ids := [];
    var left := registry;
    while left != {}
      invariant left <= registry && Ids(ids) == registry - left
      invariant forall i, j :: 0 <= i < j < |ids| ==> ids[i] < ids[j]
      invariant forall i, x :: 0 <= i < |ids| && x in left ==> ids[i] < x
      decreases left
    {
      var least := Least(left);
      ghost var before := ids;
      ids := ids + [least];
      left := left - {least};
      assert Ids(ids) == Ids(before) + {least};
    }
  }

  lemma SessionsSnoc(refs: seq<TabRef>, r: TabRef)
    ensures Sessions(refs + [r]) == Sessions(refs) + {r.session}
  {
    var all := refs + [r];
    assert all[|refs|] == r;
    forall id | id in Sessions(refs) ensures id in Sessions(all) {
      var i :| 0 <= i < |refs| && refs[i].session == id;
      assert all[i] == refs[i];
    }
  }

  lemma SessionsMembers(refs: seq<TabRef>)
    ensures forall id :: id in Sessions(refs) <==> exists r :: r in refs && r.session == id
  {
    forall r | r in refs ensures r.session in Sessions(refs) {
    }
  }

  /** The state the audit works on. */
  class Shared {
    var refs: seq<TabRef>
    var sessions: set<nat>
    var sinks: set<nat>
    var exitsInFlight: set<nat>

    constructor ()
      ensures refs == [] && sessions == {} && sinks == {} && exitsInFlight == {}
    {
      refs, sessions, sinks, exitsInFlight := [], {}, {}, {};
    }

    method EnterExit(id: nat)
      modifies this`exitsInFlight
      ensures exitsInFlight == old(exitsInFlight) + {id}
    {
      exitsInFlight := exitsInFlight + {id};
    }

    /** The guard's drop, on return and on unwinding alike. */
    method LeaveExit(id: nat)
      modifies this`exitsInFlight
      ensures exitsInFlight == old(exitsInFlight) - {id}
    {
      exitsInFlight := exitsInFlight - {id};
    }

    method SessionExited(session: nat)
      modifies this`refs
      ensures refs == LetGo(old(refs), {session})
    {
      var kept: seq<TabRef> := [];
      for i := 0 to |refs|
        invariant refs == old(refs)
        invariant kept + LetGo(refs[i..], {session}) == LetGo(refs, {session})
      {
        assert refs[i..][1..] == refs[i + 1..];
        if refs[i].session != session {
          Assoc(kept, [refs[i]], LetGo(refs[i + 1..], {session}));
          kept := kept + [refs[i]];
        }
      }
      refs := kept;
    }

    /** Dangling tabs let go of their sessions. */
    method Repair(dangling: seq<TabRef>)
      modifies this`refs
      ensures forall r :: r in refs <==> r in old(refs) && r.session !in Sessions(dangling)
    {
      for i := 0 to |dangling|
        invariant forall r :: r in refs <==> r in old(refs) && r.session !in Sessions(dangling[..i])
      {
        LetGoMembers(refs, {dangling[i].session});
        SessionExited(dangling[i].session);
        SessionsSnoc(dangling[..i], dangling[i]);
        assert dangling[..i + 1] == dangling[..i] + [dangling[i]];
      }
      assert dangling[..|dangling|] == dangling;
    }

    /** Orphans leave both registries; an unknown id is ignored. */
    method Release(orphans: seq<nat>)
      modifies this`sessions, this`sinks
      ensures sessions == old(sessions) - Ids(orphans) && sinks == old(sinks) - Ids(orphans)
    {
      for i := 0 to |orphans|
        invariant sessions == old(sessions) - Ids(orphans[..i]) && sinks == old(sinks) - Ids(orphans[..i])
      {
        sinks := sinks - {orphans[i]};
        sessions := sessions - {orphans[i]};
        assert orphans[..i + 1] == orphans[..i] + [orphans[i]];
      }
      assert orphans[..|orphans|] == orphans;
    }

    /** One audit with nobody else running. It converges at once: apart from the sessions whose
        exit is in flight, model and registries agree afterwards. */
    method AuditOnce() returns (audit: RegistryAudit)
      modifies this`refs, this`sessions, this`sinks
      ensures Ids(audit.orphanSessions) == Orphans(old(sessions), old(sinks), old(Sessions(refs)), exitsInFlight)
      ensures Ids(audit.orphanSinks) == Orphans(old(sinks), old(sessions), old(Sessions(refs)), exitsInFlight)
      ensures forall r :: r in audit.dangling <==> r in old(refs) && !(r.session in old(sessions) && r.session in old(sinks))
      ensures forall r :: r in refs <==> r in old(refs) && r.session in old(sessions) && r.session in old(sinks)
      ensures sessions <= old(sessions) && sinks <= old(sinks)
      ensures forall id :: id !in exitsInFlight ==>
                (id in sessions <==> id in Sessions(refs)) && (id in sinks <==> id in Sessions(refs))
    {
      var sessionIds := SortedIds(sessions);
      var sinkIds := SortedIds(sinks);
      audit := AuditRegistries(refs, sessionIds, sinkIds, exitsInFlight);
      JudgeMeaning(refs, sessionIds, sinkIds, exitsInFlight);
      assert forall id :: id in sessionIds <==> id in sessions;
      assert forall id :: id in sinkIds <==> id in sinks;
      ghost var before := refs;
      Repair(audit.dangling);
      SessionsMembers(before);
      SessionsMembers(audit.dangling);
      SessionsMembers(refs);
      var orphans := audit.orphanSessions + audit.orphanSinks;
      assert forall id :: id in Ids(orphans) <==> id in Ids(audit.orphanSessions) || id in Ids(audit.orphanSinks);
      Release(orphans);
      assert forall id :: id in Sessions(refs) <==> id in Sessions(before) && id in old(sessions) && id in old(sinks);
    }
  }
}
