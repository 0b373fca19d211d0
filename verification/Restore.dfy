/** Restoring the application state from disk (persist.rs over model.rs): validation, removal
    of tabs of unknown kinds, sanitizing, and the stable-id counter that must stay ahead. */
module Restore {
  import opened Bytes
  import opened Layout

  datatype TerminalStatus = Running | Exited(code: Option<nat>, endedAtMs: Option<nat>) | NotStarted

  datatype TabKind = Terminal(ptySession: Option<nat>, status: TerminalStatus) | Viewer(path: string)

  datatype Tab = Tab(id: nat, title: string, kind: TabKind, unread: bool, lastActivityMs: Option<nat>)

  datatype Pane = Pane(id: nat, tabs: seq<Tab>, activeTab: Option<nat>)

  /** One entry of the pane map, which is kept as its list of entries. */
  datatype PaneEntry = PaneEntry(key: nat, pane: Pane)

  datatype AgentStatus = AgentRunning | NeedsInput | AgentIdle

  datatype Workspace = Workspace(
    id: nat, name: string, layout: SplitTree, panes: seq<PaneEntry>, activePane: nat,
    agentStatus: AgentStatus, lastAgentMessage: Option<string>, agentStatusSource: Option<nat>)

  datatype AppState = AppState(
    workspaces: seq<Workspace>, activeWorkspace: Option<nat>, nextId: nat, revision: nat)

  // ----- every stable id in use -----

  function TabIds(tabs: seq<Tab>): seq<nat> { seq(|tabs|, i requires 0 <= i < |tabs| => tabs[i].id) }

  function Keys(panes: seq<PaneEntry>): seq<nat> { seq(|panes|, i requires 0 <= i < |panes| => panes[i].key) }

  function PaneClaims(panes: seq<PaneEntry>): seq<nat> {
    if panes == [] then [] else [panes[0].key] + TabIds(panes[0].pane.tabs) + PaneClaims(panes[1..])
  }

  function Claims(ws: Workspace): seq<nat> {
    [ws.id] + SplitIds(ws.layout) + PaneClaims(ws.panes)
  }

  function AllClaims(workspaces: seq<Workspace>): seq<nat> {
    if workspaces == [] then [] else Claims(workspaces[0]) + AllClaims(workspaces[1..])
  }

  // ----- validity -----

  predicate ActiveTabOk(pane: Pane) {
    pane.activeTab.Some? ==> pane.activeTab.value in TabIds(pane.tabs)
  }

  predicate ValidWorkspace(ws: Workspace) {
    && Distinct(Leaves(ws.layout)) && Distinct(SplitIds(ws.layout)) && RatiosOk(ws.layout)
    && (set p | p in Leaves(ws.layout)) == (set k | k in Keys(ws.panes))
    && ws.activePane in Keys(ws.panes)
    && forall i :: 0 <= i < |ws.panes| ==> ActiveTabOk(ws.panes[i].pane)
  }

  predicate ValidApp(state: AppState) {
    && Distinct(AllClaims(state.workspaces))
    && (forall i :: 0 <= i < |state.workspaces| ==> ValidWorkspace(state.workspaces[i]))
    && (state.activeWorkspace.Some? ==>
          exists i :: 0 <= i < |state.workspaces| && state.workspaces[i].id == state.activeWorkspace.value)
  }

  /** Claims ids one by one; fails at the first id claimed before. */
  method ClaimAll(seen: set<nat>, ids: seq<nat>) returns (ok: bool, now: set<nat>)
    ensures ok <==> Distinct(ids) && forall id :: id in ids ==> id !in seen
    ensures ok ==> now == seen + (set id | id in ids)
  {
    now := seen;
    for i := 0 to |ids|
      invariant Distinct(ids[..i]) && forall id :: id in ids[..i] ==> id !in seen
      invariant now == seen + (set id | id in ids[..i])
    {
      if ids[i] in now {
        return false, now;
      }
      now := now + {ids[i]};
    }
    assert ids[..|ids|] == ids;
    ok := true;
  }

  lemma {:induction false} ClaimsAppend(a: seq<Workspace>, b: seq<Workspace>)
    ensures AllClaims(a + b) == AllClaims(a) + AllClaims(b)
  {
    hide Claims;
    if a == [] {
      assert a + b == b;
    } else {
      ClaimsAppend(a[1..], b);
      assert (a + b)[0] == a[0] && (a + b)[1..] == a[1..] + b;
      Assoc(Claims(a[0]), AllClaims(a[1..]), AllClaims(b));
    }
  }

  lemma ClaimsSnoc(wss: seq<Workspace>, i: nat)
    requires i < |wss|
    ensures AllClaims(wss[..i + 1]) == AllClaims(wss[..i]) + Claims(wss[i])
  {
    hide Claims;
    var one: seq<Workspace> := [wss[i]];
    assert wss[..i + 1] == wss[..i] + one && one[1..] == [];
    ClaimsAppend(wss[..i], one);
    assert AllClaims(one) == Claims(wss[i]) + [];
  }

  lemma DistinctAppend(a: seq<nat>, b: seq<nat>)
    ensures Distinct(a + b) <==> Distinct(a) && Distinct(b) && forall x :: x in b ==> x !in a
  {
    var c := a + b;
    assert forall i :: 0 <= i < |a| ==> c[i] == a[i];
    assert forall i :: 0 <= i < |b| ==> c[|a| + i] == b[i];
    if Distinct(c) {
      forall i, j | 0 <= i < j < |b| ensures b[i] != b[j] {
        assert c[|a| + i] != c[|a| + j];
      }
      forall x | x in b ensures x !in a {
        if x in a {
          assert false;
        }
      }
    } else if Distinct(a) && Distinct(b) {
      var i, j :| 0 <= i < j < |c| && c[i] == c[j];
      if j < |a| {
        assert false;
      } else if i >= |a| {
        assert false;
      } else {
        assert b[j - |a|] in b && b[j - |a|] in a;
      }
    }
  }

  /** One pass over every workspace: the ids of all kinds share one counter, so no two may
      be equal anywhere. */
  method IdsUnique(wss: seq<Workspace>) returns (ok: bool)
    ensures ok <==> Distinct(AllClaims(wss))
  {
    hide Claims;
    var seen: set<nat> := {};
    for i := 0 to |wss|
      invariant Distinct(AllClaims(wss[..i])) && seen == set id | id in AllClaims(wss[..i])
    {
      var isNew: bool;
      isNew, seen := ClaimAll(seen, Claims(wss[i]));
      ClaimsSnoc(wss, i);
      DistinctAppend(AllClaims(wss[..i]), Claims(wss[i]));
      if !isNew {
        DistinctAppend(AllClaims(wss[..i + 1]), AllClaims(wss[i + 1..]));
        ClaimsAppend(wss[..i + 1], wss[i + 1..]);
        assert wss[..i + 1] + wss[i + 1..] == wss;
        return false;
      }
    }
    assert wss[..|wss|] == wss;
    ok := true;
  }

  /** `validate_app`: the ids over all workspaces first, then each workspace. */
  method ValidateApp(state: AppState) returns (ok: bool)
    ensures ok <==> ValidApp(state)
  {
    hide AllClaims, ValidWorkspace, Distinct;
    var wss := state.workspaces;
    ok := IdsUnique(wss);
    if !ok {
      return;
    }
    for i := 0 to |wss|
      invariant forall j :: 0 <= j < i ==> ValidWorkspace(wss[j])
    {
      if !ValidWorkspace(wss[i]) {
        return false;
      }
    }
    if state.activeWorkspace.Some? {
      return exists i :: 0 <= i < |wss| && wss[i].id == state.activeWorkspace.value;
    }
    ok := true;
  }

  // ----- where ids stand, place by place -----

  /** What in a workspace bears an id: itself, a split of its layout, a pane, or a tab. */
  datatype Spot = Itself | SplitSpot(k: nat) | PaneSpot(j: nat) | TabSpot(j: nat, k: nat)

  predicate Bears(ws: Workspace, at: Spot, id: nat) {
    match at
    case Itself => id == ws.id
    case SplitSpot(k) => k < |SplitIds(ws.layout)| && id == SplitIds(ws.layout)[k]
    case PaneSpot(j) => j < |ws.panes| && id == ws.panes[j].key
    case TabSpot(j, k) => j < |ws.panes| && k < |ws.panes[j].pane.tabs| && id == ws.panes[j].pane.tabs[k].id
  }

  /** Something in the state bears this id. */
  ghost predicate InUse(state: AppState, id: nat) {
    exists w, at :: 0 <= w < |state.workspaces| && Bears(state.workspaces[w], at, id)
  }

  ghost predicate NoIdTwiceIn(ws: Workspace) {
    forall a, b, id :: Bears(ws, a, id) && Bears(ws, b, id) ==> a == b
  }

  /** No two things in the state, of whatever kind and wherever, bear the same id. */
  ghost predicate NoIdTwice(state: AppState) {
    forall v, w, a, b, id ::
      && 0 <= v < |state.workspaces| && 0 <= w < |state.workspaces|
      && Bears(state.workspaces[v], a, id) && Bears(state.workspaces[w], b, id)
      ==> v == w && a == b
  }

  /** The same element in two places of a list of lists. */
  ghost predicate Apart(chunks: seq<seq<nat>>) {
    forall i, k, j, l ::
      && 0 <= i < |chunks| && 0 <= k < |chunks[i]| && 0 <= j < |chunks| && 0 <= l < |chunks[j]|
      && chunks[i][k] == chunks[j][l]
      ==> i == j && k == l
  }

  lemma {:induction false} FlatMembers(chunks: seq<seq<nat>>, x: nat)
    ensures x in Flat(chunks) <==> exists i, k :: 0 <= i < |chunks| && 0 <= k < |chunks[i]| && chunks[i][k] == x
  {
    if chunks != [] {
      FlatMembers(chunks[1..], x);
      if x in chunks[0] {
        var k :| 0 <= k < |chunks[0]| && chunks[0][k] == x;
      } else if x in Flat(chunks[1..]) {
        var i, k :| 0 <= i < |chunks[1..]| && 0 <= k < |chunks[1..][i]| && chunks[1..][i][k] == x;
        assert chunks[i + 1][k] == x;
      }
      if i, k :| 0 <= i < |chunks| && 0 <= k < |chunks[i]| && chunks[i][k] == x {
        if i > 0 {
          assert chunks[1..][i - 1][k] == x;
        }
      }
    }
  }

  lemma ApartCons(chunks: seq<seq<nat>>)
    requires chunks != []
    ensures Apart(chunks) <==>
              Distinct(chunks[0]) && Apart(chunks[1..])
              && forall j, l :: 1 <= j < |chunks| && 0 <= l < |chunks[j]| ==> chunks[j][l] !in chunks[0]
  {
    var rest := chunks[1..];
    if Apart(chunks) {
      forall i, k, j, l | 0 <= i < |rest| && 0 <= k < |rest[i]| && 0 <= j < |rest| && 0 <= l < |rest[j]| && rest[i][k] == rest[j][l]
        ensures i == j && k == l
      {
        assert chunks[i + 1][k] == chunks[j + 1][l];
      }
    }
    if Distinct(chunks[0]) && Apart(rest)
       && forall j, l :: 1 <= j < |chunks| && 0 <= l < |chunks[j]| ==> chunks[j][l] !in chunks[0] {
      forall i, k, j, l | 0 <= i < |chunks| && 0 <= k < |chunks[i]| && 0 <= j < |chunks| && 0 <= l < |chunks[j]| && chunks[i][k] == chunks[j][l]
        ensures i == j && k == l
      {
        if i > 0 && j > 0 {
          assert rest[i - 1][k] == rest[j - 1][l];
        }
      }
    }
  }

  lemma {:induction false} FlatDistinct(chunks: seq<seq<nat>>)
    ensures Distinct(Flat(chunks)) <==> Apart(chunks)
  {
    if chunks != [] {
      hide Apart, Distinct;
      var rest := chunks[1..];
      FlatDistinct(rest);
      ApartCons(chunks);
      DistinctAppend(chunks[0], Flat(rest));
      forall x ensures x in Flat(rest) <==> exists j, l :: 1 <= j < |chunks| && 0 <= l < |chunks[j]| && chunks[j][l] == x {
        FlatMembers(rest, x);
        if j, l :| 0 <= j < |rest| && 0 <= l < |rest[j]| && rest[j][l] == x {
          assert chunks[j + 1][l] == x;
        }
        if j, l :| 1 <= j < |chunks| && 0 <= l < |chunks[j]| && chunks[j][l] == x {
          assert rest[j - 1][l] == x;
        }
      }
    }
  }

  function PaneClaim(entry: PaneEntry): seq<nat> { [entry.key] + TabIds(entry.pane.tabs) }

  function PaneChunks(panes: seq<PaneEntry>): seq<seq<nat>> {
    seq(|panes|, i requires 0 <= i < |panes| => PaneClaim(panes[i]))
  }

  function WorkspaceChunks(wss: seq<Workspace>): seq<seq<nat>> {
    seq(|wss|, i requires 0 <= i < |wss| => Claims(wss[i]))
  }

  lemma {:induction false} PaneClaimsAreFlat(panes: seq<PaneEntry>)
    ensures PaneClaims(panes) == Flat(PaneChunks(panes))
  {
    if panes != [] {
      PaneClaimsAreFlat(panes[1..]);
      assert PaneChunks(panes)[1..] == PaneChunks(panes[1..]);
    }
  }

  lemma {:induction false} AllClaimsAreFlat(wss: seq<Workspace>)
    ensures AllClaims(wss) == Flat(WorkspaceChunks(wss))
  {
    if wss != [] {
      AllClaimsAreFlat(wss[1..]);
      assert WorkspaceChunks(wss)[1..] == WorkspaceChunks(wss[1..]);
    }
  }

  /** Which spot of a pane a position in its list of ids is. */
  function PaneSpotAt(j: nat, k: nat): Spot { if k == 0 then PaneSpot(j) else TabSpot(j, k - 1) }

  lemma PaneClaimAt(ws: Workspace, j: nat, k: nat, id: nat)
    requires j < |ws.panes|
    ensures Bears(ws, PaneSpotAt(j, k), id) <==> k < |PaneClaim(ws.panes[j])| && PaneClaim(ws.panes[j])[k] == id
  {
  }

  lemma PaneMembers(ws: Workspace, id: nat)
    ensures id in PaneClaims(ws.panes) <==> exists j: nat, k: nat :: j < |ws.panes| && Bears(ws, PaneSpotAt(j, k), id)
  {
    hide Bears, PaneClaim, PaneSpotAt;
    PaneClaimsAreFlat(ws.panes);
    FlatMembers(PaneChunks(ws.panes), id);
    forall j: nat, k: nat | j < |ws.panes|
      ensures Bears(ws, PaneSpotAt(j, k), id) <==> k < |PaneChunks(ws.panes)[j]| && PaneChunks(ws.panes)[j][k] == id
    {
      PaneClaimAt(ws, j, k, id);
    }
  }

  lemma ClaimMembers(ws: Workspace, id: nat)
    ensures id in Claims(ws) <==> exists at :: Bears(ws, at, id)
  {
    PaneMembers(ws, id);
    if id in Claims(ws) {
      if id in SplitIds(ws.layout) {
        var k :| 0 <= k < |SplitIds(ws.layout)| && SplitIds(ws.layout)[k] == id;
        assert Bears(ws, SplitSpot(k), id);
      } else if id == ws.id {
        assert Bears(ws, Itself, id);
      }
    }
    if at :| Bears(ws, at, id) {
      match at
      case Itself =>
      case SplitSpot(_) =>
      case PaneSpot(j) => assert PaneSpotAt(j, 0) == at;
      case TabSpot(j, k) => assert PaneSpotAt(j, k + 1) == at;
    }
  }

  /** No id twice among the panes and tabs of a workspace. */
  ghost predicate PanesApart(ws: Workspace) {
    forall i: nat, k: nat, j: nat, l: nat, id ::
      Bears(ws, PaneSpotAt(i, k), id) && Bears(ws, PaneSpotAt(j, l), id) ==> i == j && k == l
  }

  lemma NoSuchPane(ws: Workspace, j: nat, k: nat, id: nat)
    requires j >= |ws.panes|
    ensures !Bears(ws, PaneSpotAt(j, k), id)
  {
  }

  lemma PanesDistinct(ws: Workspace)
    ensures Distinct(PaneClaims(ws.panes)) <==> PanesApart(ws)
  {
    hide Bears, PaneClaim, PaneSpotAt, Distinct;
    PaneClaimsAreFlat(ws.panes);
    var chunks := PaneChunks(ws.panes);
    FlatDistinct(chunks);
    forall j: nat, k: nat, id ensures Bears(ws, PaneSpotAt(j, k), id) <==> j < |chunks| && k < |chunks[j]| && chunks[j][k] == id {
      if j < |chunks| {
        PaneClaimAt(ws, j, k, id);
      } else {
        NoSuchPane(ws, j, k, id);
      }
    }
    if PanesApart(ws) {
      forall i, k, j, l | 0 <= i < |chunks| && 0 <= k < |chunks[i]| && 0 <= j < |chunks| && 0 <= l < |chunks[j]| && chunks[i][k] == chunks[j][l]
        ensures i == j && k == l
      {
        assert Bears(ws, PaneSpotAt(i, k), chunks[i][k]) && Bears(ws, PaneSpotAt(j, l), chunks[i][k]);
      }
    }
  }

  lemma KindsApart(ws: Workspace)
    requires NoIdTwiceIn(ws)
    ensures Distinct(SplitIds(ws.layout)) && ws.id !in SplitIds(ws.layout) && PanesApart(ws)
    ensures forall id :: id in PaneClaims(ws.panes) ==> id != ws.id && id !in SplitIds(ws.layout)
  {
    var splits := SplitIds(ws.layout);
    forall i, j | 0 <= i < j < |splits| ensures splits[i] != splits[j] {
      assert Bears(ws, SplitSpot(i), splits[i]) && Bears(ws, SplitSpot(j), splits[j]);
    }
    forall i | 0 <= i < |splits| ensures splits[i] != ws.id {
      assert Bears(ws, SplitSpot(i), splits[i]) && Bears(ws, Itself, ws.id);
    }
    forall id | id in PaneClaims(ws.panes) ensures id != ws.id && id !in splits {
      PaneMembers(ws, id);
      var j: nat, k: nat :| j < |ws.panes| && Bears(ws, PaneSpotAt(j, k), id);
      assert !Bears(ws, Itself, id);
      assert forall i: nat :: !Bears(ws, SplitSpot(i), id);
      assert forall i: nat :: i < |splits| ==> (Bears(ws, SplitSpot(i), id) <==> splits[i] == id);
    }
  }

  /** A spot among the panes, written as a position. */
  lemma SpotOf(at: Spot) returns (j: nat, k: nat)
    requires at.PaneSpot? || at.TabSpot?
    ensures at == PaneSpotAt(j, k)
  {
    j, k := at.j, if at.PaneSpot? then 0 else at.k + 1;
  }

  lemma SameSpot(ws: Workspace, a: Spot, b: Spot, id: nat)
    requires Distinct(SplitIds(ws.layout)) && ws.id !in SplitIds(ws.layout) && PanesApart(ws)
    requires forall x :: x in PaneClaims(ws.panes) ==> x != ws.id && x !in SplitIds(ws.layout)
    requires Bears(ws, a, id) && Bears(ws, b, id)
    ensures a == b
  {
    PaneMembers(ws, id);
    if a.PaneSpot? || a.TabSpot? {
      var i, k := SpotOf(a);
      if b.PaneSpot? || b.TabSpot? {
        var j, l := SpotOf(b);
      }
    } else if b.PaneSpot? || b.TabSpot? {
      var j, l := SpotOf(b);
    }
  }

  lemma ClaimsDistinct(ws: Workspace)
    ensures Distinct(Claims(ws)) <==> NoIdTwiceIn(ws)
  {
    var own, splits, panes := [ws.id], SplitIds(ws.layout), PaneClaims(ws.panes);
    DistinctAppend(own, splits);
    DistinctAppend(own + splits, panes);
    PanesDistinct(ws);
    forall id ensures id in panes <==> exists j: nat, k: nat :: j < |ws.panes| && Bears(ws, PaneSpotAt(j, k), id) {
      PaneMembers(ws, id);
    }
    if NoIdTwiceIn(ws) {
      KindsApart(ws);
    }
    if Distinct(Claims(ws)) {
      forall a, b, id | Bears(ws, a, id) && Bears(ws, b, id) ensures a == b {
        SameSpot(ws, a, b, id);
      }
    }
  }

  lemma BorneOnce(wss: seq<Workspace>, v: nat, w: nat, a: Spot, b: Spot, id: nat)
    requires Apart(WorkspaceChunks(wss)) && v < |wss| && w < |wss|
    requires Bears(wss[v], a, id) && Bears(wss[w], b, id)
    ensures v == w && a == b
  {
    hide Claims, Bears;
    var chunks := WorkspaceChunks(wss);
    ClaimMembers(wss[v], id);
    ClaimMembers(wss[w], id);
    var i :| 0 <= i < |chunks[v]| && chunks[v][i] == id;
    var j :| 0 <= j < |chunks[w]| && chunks[w][j] == id;
    forall k, l | 0 <= k < l < |chunks[v]| ensures chunks[v][k] != chunks[v][l] {}
    assert Distinct(Claims(wss[v]));
    ClaimsDistinct(wss[v]);
  }

  lemma ClaimedOnce(state: AppState, i: nat, k: nat, j: nat, l: nat)
    requires NoIdTwice(state) && i < |state.workspaces| && j < |state.workspaces|
    requires k < |Claims(state.workspaces[i])| && l < |Claims(state.workspaces[j])|
    requires Claims(state.workspaces[i])[k] == Claims(state.workspaces[j])[l]
    ensures i == j && k == l
  {
    hide Claims, Bears;
    var id := Claims(state.workspaces[i])[k];
    ClaimMembers(state.workspaces[i], id);
    ClaimMembers(state.workspaces[j], id);
    assert NoIdTwiceIn(state.workspaces[i]);
    ClaimsDistinct(state.workspaces[i]);
  }

  /** The ids claimed are those that something bears, and they are distinct exactly when no id
      is borne twice. */
  lemma ClaimsMeaning(state: AppState)
    ensures forall id :: id in AllClaims(state.workspaces) <==> InUse(state, id)
    ensures Distinct(AllClaims(state.workspaces)) <==> NoIdTwice(state)
  {
    hide Claims, Bears, Distinct, AllClaims;
    var wss := state.workspaces;
    var chunks := WorkspaceChunks(wss);
    AllClaimsAreFlat(wss);
    forall id ensures id in AllClaims(wss) <==> InUse(state, id) {
      FlatMembers(chunks, id);
      forall w | 0 <= w < |wss| ensures id in chunks[w] <==> exists at :: Bears(wss[w], at, id) {
        ClaimMembers(wss[w], id);
      }
    }
    FlatDistinct(chunks);
    if Apart(chunks) {
      forall v, w, a, b, id | 0 <= v < |wss| && 0 <= w < |wss| && Bears(wss[v], a, id) && Bears(wss[w], b, id) ensures v == w && a == b {
        BorneOnce(wss, v, w, a, b, id);
      }
    }
    if NoIdTwice(state) {
      forall i, k, j, l | 0 <= i < |chunks| && 0 <= k < |chunks[i]| && 0 <= j < |chunks| && 0 <= l < |chunks[j]| && chunks[i][k] == chunks[j][l]
        ensures i == j && k == l
      {
        ClaimedOnce(state, i, k, j, l);
      }
    }
  }

  /** A valid workspace, in its own terms. */
  ghost predicate Sound(ws: Workspace) {
    && (forall i, j :: 0 <= i < j < |Leaves(ws.layout)| ==> Leaves(ws.layout)[i] != Leaves(ws.layout)[j])
    && (forall pane :: pane in Leaves(ws.layout) <==> exists j :: 0 <= j < |ws.panes| && ws.panes[j].key == pane)
    && (forall at, node :: SplitStands(ws.layout, at, node) ==> node.ratio.Finite? && 0.0 < node.ratio.value < 1.0)
    && (exists j :: 0 <= j < |ws.panes| && ws.panes[j].key == ws.activePane)
    && forall j :: 0 <= j < |ws.panes| && ws.panes[j].pane.activeTab.Some? ==>
         exists k :: 0 <= k < |ws.panes[j].pane.tabs| && ws.panes[j].pane.tabs[k].id == ws.panes[j].pane.activeTab.value
  }

  lemma ActiveTabMeans(pane: Pane)
    ensures ActiveTabOk(pane) <==>
              (pane.activeTab.Some? ==> exists k :: 0 <= k < |pane.tabs| && pane.tabs[k].id == pane.activeTab.value)
  {
    if k :| pane.activeTab.Some? && 0 <= k < |pane.tabs| && pane.tabs[k].id == pane.activeTab.value {
      assert TabIds(pane.tabs)[k] == pane.activeTab.value;
    }
  }

  lemma SoundExactly(ws: Workspace)
    ensures ValidWorkspace(ws) <==> Sound(ws) && Distinct(SplitIds(ws.layout))
  {
    RatiosAreNodes(ws.layout);
    forall id ensures id in Keys(ws.panes) <==> exists j :: 0 <= j < |ws.panes| && ws.panes[j].key == id {
      if j :| 0 <= j < |ws.panes| && ws.panes[j].key == id {
        assert Keys(ws.panes)[j] == id;
      }
    }
    forall j | 0 <= j < |ws.panes| ensures ActiveTabOk(ws.panes[j].pane) <==>
      (ws.panes[j].pane.activeTab.Some? ==>
         exists k :: 0 <= k < |ws.panes[j].pane.tabs| && ws.panes[j].pane.tabs[k].id == ws.panes[j].pane.activeTab.value)
    {
      ActiveTabMeans(ws.panes[j].pane);
    }
    var leaves, keys := set p | p in Leaves(ws.layout), set k | k in Keys(ws.panes);
    assert leaves == keys <==> forall id :: id in Leaves(ws.layout) <==> id in Keys(ws.panes) by {
      assert forall id :: (id in leaves <==> id in Leaves(ws.layout)) && (id in keys <==> id in Keys(ws.panes));
    }
  }

  /** Exactly the states the load accepts: no id is borne twice; in every workspace the panes
      are the leaves, each once, the ratios lie strictly between 0 and 1, and the active pane and
      tabs exist; and so does the active workspace. */
  lemma ValidExactly(state: AppState)
    ensures ValidApp(state) <==>
              && NoIdTwice(state)
              && (forall i :: 0 <= i < |state.workspaces| ==> Sound(state.workspaces[i]))
              && (state.activeWorkspace.Some? ==>
                    exists i :: 0 <= i < |state.workspaces| && state.workspaces[i].id == state.activeWorkspace.value)
  {
    hide Sound, ValidWorkspace, AllClaims, Bears;
    ClaimsMeaning(state);
    forall i | 0 <= i < |state.workspaces| && NoIdTwice(state)
      ensures ValidWorkspace(state.workspaces[i]) <==> Sound(state.workspaces[i])
    {
      SoundExactly(state.workspaces[i]);
      assert NoIdTwiceIn(state.workspaces[i]);
      KindsApart(state.workspaces[i]);
    }
  }

  // ----- removing the tabs of unknown kinds -----

  function Survivors(tabs: seq<Tab>, gone: set<nat>): seq<Tab> {
    if tabs == [] then []
    else (if tabs[0].id in gone then [] else [tabs[0]]) + Survivors(tabs[1..], gone)
  }

  predicate ActiveGone(pane: Pane, gone: set<nat>) {
    exists i :: 0 <= i < |pane.tabs| && pane.tabs[i].id in gone && pane.activeTab == Some(pane.tabs[i].id)
  }

  function StripPane(pane: Pane, gone: set<nat>): Pane {
    var tabs := Survivors(pane.tabs, gone);
    pane.(tabs := tabs,
          activeTab := if !ActiveGone(pane, gone) then pane.activeTab
                       else if tabs == [] then None else Some(tabs[0].id))
  }

  function StripPanes(panes: seq<PaneEntry>, gone: set<nat>): seq<PaneEntry> {
    seq(|panes|, i requires 0 <= i < |panes| => panes[i].(pane := StripPane(panes[i].pane, gone)))
  }

  function Strip(state: AppState, gone: set<nat>): AppState {
    state.(workspaces := seq(|state.workspaces|, i requires 0 <= i < |state.workspaces| =>
             state.workspaces[i].(panes := StripPanes(state.workspaces[i].panes, gone))))
  }

  lemma NothingGone(pane: Pane, gone: set<nat>)
    ensures !ActiveGone(pane.(tabs := pane.tabs[..0]), gone)
  {
  }

  lemma GoneSnoc(pane: Pane, gone: set<nat>, i: nat)
    requires i < |pane.tabs|
    ensures ActiveGone(pane.(tabs := pane.tabs[..i + 1]), gone) <==>
              || ActiveGone(pane.(tabs := pane.tabs[..i]), gone)
              || (pane.tabs[i].id in gone && pane.activeTab == Some(pane.tabs[i].id))
  {
    var upTo, before := pane.tabs[..i + 1], pane.tabs[..i];
    assert upTo[i] == pane.tabs[i];
    assert forall j :: 0 <= j < i ==> upTo[j] == before[j];
  }

  lemma SurvivorsFrom(tabs: seq<Tab>, i: nat, gone: set<nat>)
    requires i < |tabs|
    ensures Survivors(tabs[i..], gone) ==
              (if tabs[i].id in gone then Survivors(tabs[i + 1..], gone) else [tabs[i]] + Survivors(tabs[i + 1..], gone))
  {
    assert tabs[i..][1..] == tabs[i + 1..];
  }

  lemma NoSurvivors(tabs: seq<Tab>, gone: set<nat>)
    requires tabs == []
    ensures Survivors(tabs, gone) == []
  {
  }

  method RemoveTabs(pane: Pane, gone: set<nat>) returns (out: Pane)
    ensures out == StripPane(pane, gone)
  {
    hide ActiveGone, Survivors;
    var survivors: seq<Tab> := [];
    var activeRemoved := false;
    NothingGone(pane, gone);
    assert pane.tabs[0..] == pane.tabs;
    for i := 0 to |pane.tabs|
      invariant survivors + Survivors(pane.tabs[i..], gone) == Survivors(pane.tabs, gone)
      invariant activeRemoved <==> ActiveGone(pane.(tabs := pane.tabs[..i]), gone)
    {
      var tab := pane.tabs[i];
      GoneSnoc(pane, gone, i);
      SurvivorsFrom(pane.tabs, i, gone);
      if tab.id in gone {
        activeRemoved := activeRemoved || pane.activeTab == Some(tab.id);
      } else {
        Assoc(survivors, [tab], Survivors(pane.tabs[i + 1..], gone));
        survivors := survivors + [tab];
      }
    }
    assert pane.tabs[..|pane.tabs|] == pane.tabs;
    NoSurvivors(pane.tabs[|pane.tabs|..], gone);
    out := pane.(tabs := survivors);
    if activeRemoved {
      out := out.(activeTab := if survivors == [] then None else Some(survivors[0].id));
    }
  }

  method RemoveUnknownTabs(state: AppState, gone: set<nat>) returns (out: AppState)
    ensures out == Strip(state, gone)
  {
    hide StripPane;
    var workspaces: seq<Workspace> := [];
    for i := 0 to |state.workspaces|
      invariant workspaces == Strip(state, gone).workspaces[..i]
    {
      var panes: seq<PaneEntry> := [];
      var old' := state.workspaces[i].panes;
      for j := 0 to |old'|
        invariant panes == StripPanes(old', gone)[..j]
      {
        var pane := RemoveTabs(old'[j].pane, gone);
        panes := panes + [old'[j].(pane := pane)];
      }
      assert panes == StripPanes(old', gone);
      workspaces := workspaces + [state.workspaces[i].(panes := panes)];
    }
    out := state.(workspaces := workspaces);
  }

  /** `a` is `b` with some elements left out. */
  predicate Thinned(a: seq<nat>, b: seq<nat>)
    decreases |b|
  {
    a == [] || (b != [] && ((a[0] == b[0] && Thinned(a[1..], b[1..])) || Thinned(a, b[1..])))
  }

  lemma {:induction false} ThinnedSelf(a: seq<nat>)
    ensures Thinned(a, a)
  {
    if a != [] {
      ThinnedSelf(a[1..]);
    }
  }

  lemma {:induction false} ThinnedAppend(a: seq<nat>, b: seq<nat>, c: seq<nat>, d: seq<nat>)
    requires Thinned(a, b) && Thinned(c, d)
    ensures Thinned(a + c, b + d)
    decreases |b|
  {
    if b == [] {
      assert a + c == c && b + d == d;
    } else {
      assert (b + d)[0] == b[0] && (b + d)[1..] == b[1..] + d;
      if a != [] && a[0] == b[0] && Thinned(a[1..], b[1..]) {
        ThinnedAppend(a[1..], b[1..], c, d);
        assert (a + c)[0] == a[0] && (a + c)[1..] == a[1..] + c;
      } else {
        ThinnedAppend(a, b[1..], c, d);
      }
    }
  }

  lemma {:induction false} ThinnedDistinct(a: seq<nat>, b: seq<nat>)
    requires Thinned(a, b)
    ensures forall x :: x in a ==> x in b
    ensures Distinct(b) ==> Distinct(a)
    decreases |b|
  {
    if a != [] {
      assert b == [b[0]] + b[1..];
      DistinctAppend([b[0]], b[1..]);
      if a[0] == b[0] && Thinned(a[1..], b[1..]) {
        ThinnedDistinct(a[1..], b[1..]);
        assert a == [a[0]] + a[1..];
        DistinctAppend([a[0]], a[1..]);
      } else {
        ThinnedDistinct(a, b[1..]);
      }
    }
  }

  lemma {:induction false} SurvivorsThin(tabs: seq<Tab>, gone: set<nat>)
    ensures Thinned(TabIds(Survivors(tabs, gone)), TabIds(tabs))
    ensures forall id :: id in TabIds(tabs) ==> id in gone || id in TabIds(Survivors(tabs, gone))
  {
    if tabs != [] {
      SurvivorsThin(tabs[1..], gone);
      var rest := Survivors(tabs[1..], gone);
      assert TabIds(tabs)[1..] == TabIds(tabs[1..]);
      if tabs[0].id in gone {
        assert Survivors(tabs, gone) == rest;
      } else {
        assert TabIds(Survivors(tabs, gone)) == [tabs[0].id] + TabIds(rest);
      }
      assert TabIds(tabs) == [tabs[0].id] + TabIds(tabs[1..]);
    }
  }

  lemma {:induction false} SurvivorsMembers(tabs: seq<Tab>, gone: set<nat>)
    ensures forall tab :: tab in Survivors(tabs, gone) <==> tab in tabs && tab.id !in gone
  {
    if tabs != [] {
      SurvivorsMembers(tabs[1..], gone);
      assert tabs == [tabs[0]] + tabs[1..];
    }
  }

  /** What a removal does to a pane: exactly the named tabs are gone and the rest keep their
      order; the active tab stays unless it was among them, and then the first left takes over. */
  lemma StripPaneExact(pane: Pane, gone: set<nat>)
    ensures var out := StripPane(pane, gone);
            && out.id == pane.id
            && (forall tab :: tab in out.tabs <==> tab in pane.tabs && tab.id !in gone)
            && Thinned(TabIds(out.tabs), TabIds(pane.tabs))
            && (ActiveTabOk(pane) ==>
                  out.activeTab == (if pane.activeTab.Some? && pane.activeTab.value in gone
                                    then (if out.tabs == [] then None else Some(out.tabs[0].id)) else pane.activeTab))
  {
    hide Thinned, Survivors;
    SurvivorsMembers(pane.tabs, gone);
    SurvivorsThin(pane.tabs, gone);
    if ActiveTabOk(pane) && pane.activeTab.Some? {
      var i :| 0 <= i < |TabIds(pane.tabs)| && TabIds(pane.tabs)[i] == pane.activeTab.value;
      assert pane.tabs[i].id == pane.activeTab.value;
      assert pane.activeTab.value in gone ==> ActiveGone(pane, gone);
    }
  }

  /** And it does so to every pane of every workspace, and nothing else. */
  lemma StripExact(state: AppState, gone: set<nat>)
    ensures var out := Strip(state, gone);
            && out == state.(workspaces := out.workspaces) && |out.workspaces| == |state.workspaces|
            && forall i :: 0 <= i < |state.workspaces| ==>
                 var before, after := state.workspaces[i], out.workspaces[i];
                 && after == before.(panes := after.panes) && |after.panes| == |before.panes|
                 && forall j :: 0 <= j < |before.panes| ==>
                      after.panes[j] == PaneEntry(before.panes[j].key, StripPane(before.panes[j].pane, gone))
  {
  }

  lemma {:induction false} PaneClaimsThin(panes: seq<PaneEntry>, gone: set<nat>)
    ensures Thinned(PaneClaims(StripPanes(panes, gone)), PaneClaims(panes))
    ensures forall id :: id in PaneClaims(panes) ==> id in gone || id in PaneClaims(StripPanes(panes, gone))
  {
    if panes != [] {
      hide TabIds, Survivors, Thinned;
      var stripped := StripPanes(panes, gone);
      PaneClaimsThin(panes[1..], gone);
      assert stripped[1..] == StripPanes(panes[1..], gone);
      SurvivorsThin(panes[0].pane.tabs, gone);
      var key := [panes[0].key];
      var before, after := TabIds(panes[0].pane.tabs), TabIds(stripped[0].pane.tabs);
      ThinnedSelf(key);
      ThinnedAppend(key, key, after, before);
      ThinnedAppend(key + after, key + before, PaneClaims(stripped[1..]), PaneClaims(panes[1..]));
    }
  }

  lemma {:induction false} ClaimsThin(state: AppState, gone: set<nat>)
    ensures Thinned(AllClaims(Strip(state, gone).workspaces), AllClaims(state.workspaces))
    ensures forall id :: id in AllClaims(state.workspaces) ==> id in gone || id in AllClaims(Strip(state, gone).workspaces)
    decreases |state.workspaces|
  {
    if state.workspaces != [] {
      hide Thinned, PaneClaims, StripPanes;
      var rest := state.(workspaces := state.workspaces[1..]);
      ClaimsThin(rest, gone);
      var before, after := state.workspaces[0], Strip(state, gone).workspaces[0];
      assert Strip(state, gone).workspaces[1..] == Strip(rest, gone).workspaces;
      PaneClaimsThin(before.panes, gone);
      var head := [before.id] + SplitIds(before.layout);
      ThinnedSelf(head);
      ThinnedAppend(head, head, PaneClaims(after.panes), PaneClaims(before.panes));
      ThinnedAppend(Claims(after), Claims(before), AllClaims(Strip(rest, gone).workspaces), AllClaims(rest.workspaces));
    }
  }

  lemma StripPaneKeepsActive(pane: Pane, gone: set<nat>)
    requires ActiveTabOk(pane)
    ensures ActiveTabOk(StripPane(pane, gone))
  {
    var tabs := Survivors(pane.tabs, gone);
    SurvivorsThin(pane.tabs, gone);
    if ActiveGone(pane, gone) {
      if tabs != [] {
        assert TabIds(tabs)[0] == tabs[0].id;
      }
    } else if pane.activeTab.Some? {
      var id := pane.activeTab.value;
      var i :| 0 <= i < |TabIds(pane.tabs)| && TabIds(pane.tabs)[i] == id;
      assert pane.tabs[i].id == id;
    }
  }

  /** Removing any set of tabs from a valid state leaves a valid state, so the second
      validation can never be what refuses a file. */
  lemma StripKeepsValid(state: AppState, gone: set<nat>)
    requires ValidApp(state)
    ensures ValidApp(Strip(state, gone))
  {
    hide StripPane;
    var out := Strip(state, gone);
    ClaimsThin(state, gone);
    ThinnedDistinct(AllClaims(out.workspaces), AllClaims(state.workspaces));
    forall i | 0 <= i < |out.workspaces| ensures ValidWorkspace(out.workspaces[i]) {
      var before, after := state.workspaces[i], out.workspaces[i];
      assert ValidWorkspace(before);
      assert Keys(after.panes) == Keys(before.panes);
      forall j | 0 <= j < |after.panes| ensures ActiveTabOk(after.panes[j].pane) {
        assert ActiveTabOk(before.panes[j].pane);
        StripPaneKeepsActive(before.panes[j].pane, gone);
      }
    }
    if state.activeWorkspace.Some? {
      var i :| 0 <= i < |state.workspaces| && state.workspaces[i].id == state.activeWorkspace.value;
      assert out.workspaces[i].id == state.activeWorkspace.value;
    }
  }

  // ----- sanitizing -----

  function SanitizeTab(tab: Tab): Tab {
    var kind := match tab.kind
      case Terminal(_, status) => Terminal(None, if status.NotStarted? then Running else status)
      case Viewer(_) => tab.kind;
    tab.(kind := kind, unread := false, lastActivityMs := None)
  }

  function SanitizeTabs(tabs: seq<Tab>): seq<Tab> { seq(|tabs|, i requires 0 <= i < |tabs| => SanitizeTab(tabs[i])) }

  function SanitizePanes(panes: seq<PaneEntry>): seq<PaneEntry> {
    seq(|panes|, i requires 0 <= i < |panes| => panes[i].(pane := panes[i].pane.(tabs := SanitizeTabs(panes[i].pane.tabs))))
  }

  function SanitizeWorkspace(ws: Workspace): Workspace {
    ws.(agentStatus := AgentIdle, agentStatusSource := None, lastAgentMessage := None, panes := SanitizePanes(ws.panes))
  }

  function Cleared(state: AppState): AppState {
    state.(workspaces := seq(|state.workspaces|, i requires 0 <= i < |state.workspaces| => SanitizeWorkspace(state.workspaces[i])))
  }

  function MaxOf(ids: seq<nat>): (m: nat)
    ensures forall id :: id in ids ==> id <= m
    ensures m == 0 || m in ids
  {
    if ids == [] then 0
    else
      var m := MaxOf(ids[1..]);
      assert forall id :: id in ids ==> id == ids[0] || id in ids[1..];
      Max(ids[0], m)
  }

  datatype Sanitized = Refused | Done(state: AppState, repaired: bool)

  /** `reserved` is the largest id among removed tabs. */
  function Sanitize(state: AppState, reserved: Option<nat>): Sanitized {
    var cleared := Cleared(state);
    var maxId := Max(MaxOf(AllClaims(cleared.workspaces)), if reserved.Some? then reserved.value else 0);
    if cleared.nextId > maxId then Done(cleared, false)
    else if maxId >= U64_MAX then Refused
    else Done(cleared.(nextId := maxId + 1), true)
  }

  lemma {:induction false} MaxOfSnoc(ids: seq<nat>, id: nat)
    ensures MaxOf(ids + [id]) == Max(MaxOf(ids), id)
  {
    if ids != [] {
      MaxOfSnoc(ids[1..], id);
      assert (ids + [id])[0] == ids[0] && (ids + [id])[1..] == ids[1..] + [id];
    }
  }

  method MaxWith(most: nat, ghost before: seq<nat>, ids: seq<nat>) returns (m: nat)
    requires most == MaxOf(before)
    ensures m == MaxOf(before + ids)
  {
    hide MaxOf;
    m := most;
    assert before + ids[..0] == before;
    for j := 0 to |ids|
      invariant m == MaxOf(before + ids[..j])
    {
      assert before + ids[..j + 1] == (before + ids[..j]) + [ids[j]];
      MaxOfSnoc(before + ids[..j], ids[j]);
      m := Max(m, ids[j]);
    }
    assert ids[..|ids|] == ids;
  }

  method MaxUsedId(state: AppState) returns (m: nat)
    ensures m == MaxOf(AllClaims(state.workspaces))
  {
    hide Claims;
    m := 0;
    for i := 0 to |state.workspaces|
      invariant m == MaxOf(AllClaims(state.workspaces[..i]))
    {
      ClaimsSnoc(state.workspaces, i);
      m := MaxWith(m, AllClaims(state.workspaces[..i]), Claims(state.workspaces[i]));
    }
    assert state.workspaces[..|state.workspaces|] == state.workspaces;
  }

  method SanitizeState(state: AppState, reserved: Option<nat>) returns (out: Sanitized)
    ensures out == Sanitize(state, reserved)
  {
    hide SanitizeTab, MaxOf, AllClaims;
    var workspaces: seq<Workspace> := [];
    for i := 0 to |state.workspaces|
      invariant workspaces == Cleared(state).workspaces[..i]
    {
      var panes: seq<PaneEntry> := [];
      var old' := state.workspaces[i].panes;
      for j := 0 to |old'|
        invariant panes == SanitizePanes(old')[..j]
      {
        var tabs: seq<Tab> := [];
        for k := 0 to |old'[j].pane.tabs|
          invariant tabs == SanitizeTabs(old'[j].pane.tabs)[..k]
        {
          tabs := tabs + [SanitizeTab(old'[j].pane.tabs[k])];
        }
        assert tabs == SanitizeTabs(old'[j].pane.tabs);
        panes := panes + [old'[j].(pane := old'[j].pane.(tabs := tabs))];
      }
      assert panes == SanitizePanes(old');
      workspaces := workspaces + [state.workspaces[i].(
        agentStatus := AgentIdle, agentStatusSource := None, lastAgentMessage := None, panes := panes)];
    }
    assert workspaces == Cleared(state).workspaces;
    var cleared := state.(workspaces := workspaces);
    var used := MaxUsedId(cleared);
    var maxId := Max(used, if reserved.Some? then reserved.value else 0);
    if cleared.nextId <= maxId {
      if maxId >= U64_MAX {
        return Refused;
      }
      return Done(cleared.(nextId := maxId + 1), true);
    }
    out := Done(cleared, false);
  }

  lemma {:induction false} ClearedPaneClaims(panes: seq<PaneEntry>)
    ensures PaneClaims(SanitizePanes(panes)) == PaneClaims(panes)
  {
    if panes != [] {
      ClearedPaneClaims(panes[1..]);
      assert SanitizePanes(panes)[1..] == SanitizePanes(panes[1..]);
      assert TabIds(SanitizeTabs(panes[0].pane.tabs)) == TabIds(panes[0].pane.tabs);
    }
  }

  lemma {:induction false} ClearedClaims(state: AppState)
    ensures AllClaims(Cleared(state).workspaces) == AllClaims(state.workspaces)
    decreases |state.workspaces|
  {
    hide PaneClaims, SanitizePanes;
    if state.workspaces != [] {
      var rest := state.(workspaces := state.workspaces[1..]);
      ClearedClaims(rest);
      assert Cleared(state).workspaces[1..] == Cleared(rest).workspaces;
      ClearedPaneClaims(state.workspaces[0].panes);
    }
  }

  /** A restored tab: no session, no notification, no activity; an exit stays an exit, and a
      tab that had not started runs again. */
  predicate Rested(before: Tab, after: Tab) {
    && after.id == before.id && after.title == before.title && !after.unread && after.lastActivityMs.None?
    && match before.kind
       case Viewer(_) => after.kind == before.kind
       case Terminal(_, status) =>
         && after.kind.Terminal? && after.kind.ptySession.None? && !after.kind.status.NotStarted?
         && (!status.NotStarted? ==> after.kind.status == status) && (status.NotStarted? ==> after.kind.status.Running?)
  }

  predicate PanesRested(before: seq<PaneEntry>, after: seq<PaneEntry>) {
    && |after| == |before|
    && forall j :: 0 <= j < |before| ==>
         && after[j].key == before[j].key && after[j].pane.id == before[j].pane.id
         && after[j].pane.activeTab == before[j].pane.activeTab && |after[j].pane.tabs| == |before[j].pane.tabs|
         && forall k :: 0 <= k < |before[j].pane.tabs| ==> Rested(before[j].pane.tabs[k], after[j].pane.tabs[k])
  }

  lemma PanesAreRested(panes: seq<PaneEntry>)
    ensures PanesRested(panes, SanitizePanes(panes))
  {
  }

  /** What sanitizing does, and that it does nothing else. */
  lemma SanitizeExact(state: AppState, reserved: Option<nat>)
    requires Sanitize(state, reserved).Done?
    ensures var out := Sanitize(state, reserved).state;
            && |out.workspaces| == |state.workspaces|
            && out.activeWorkspace == state.activeWorkspace && out.revision == state.revision && out.nextId >= state.nextId
            && (Sanitize(state, reserved).repaired <==> out.nextId != state.nextId)
    ensures var out := Sanitize(state, reserved).state;
            forall i :: 0 <= i < |state.workspaces| ==>
              var before, after := state.workspaces[i], out.workspaces[i];
              && after.id == before.id && after.name == before.name && after.layout == before.layout
              && after.activePane == before.activePane && after.agentStatus.AgentIdle?
              && after.lastAgentMessage.None? && after.agentStatusSource.None? && PanesRested(before.panes, after.panes)
  {
    hide MaxOf, AllClaims, PanesRested;
    forall i | 0 <= i < |state.workspaces|
      ensures PanesRested(state.workspaces[i].panes, SanitizePanes(state.workspaces[i].panes))
    {
      PanesAreRested(state.workspaces[i].panes);
    }
  }

  /** Sanitizing keeps a valid state valid: it renames nothing and moves nothing. */
  lemma SanitizeKeepsValid(state: AppState, reserved: Option<nat>)
    requires ValidApp(state) && Sanitize(state, reserved).Done?
    ensures ValidApp(Sanitize(state, reserved).state)
  {
    hide PaneClaims, AllClaims, MaxOf;
    var out := Cleared(state);
    ClearedClaims(state);
    forall i | 0 <= i < |out.workspaces| ensures ValidWorkspace(out.workspaces[i]) {
      var before, after := state.workspaces[i], out.workspaces[i];
      assert ValidWorkspace(before);
      assert Keys(after.panes) == Keys(before.panes);
      forall j | 0 <= j < |after.panes| ensures ActiveTabOk(after.panes[j].pane) {
        assert ActiveTabOk(before.panes[j].pane);
        assert TabIds(after.panes[j].pane.tabs) == TabIds(before.panes[j].pane.tabs);
      }
    }
    if state.activeWorkspace.Some? {
      var i :| 0 <= i < |state.workspaces| && state.workspaces[i].id == state.activeWorkspace.value;
      assert out.workspaces[i].id == state.activeWorkspace.value;
    }
  }

  lemma ClearedTwice(state: AppState)
    ensures Cleared(Cleared(state)) == Cleared(state)
  {
    var once, twice := Cleared(state), Cleared(Cleared(state));
    forall i | 0 <= i < |once.workspaces| ensures twice.workspaces[i] == once.workspaces[i] {
      var p, q := once.workspaces[i].panes, twice.workspaces[i].panes;
      forall j | 0 <= j < |p| ensures q[j] == p[j] {
        assert q[j].pane.tabs == p[j].pane.tabs;
      }
      assert q == p;
    }
    assert twice.workspaces == once.workspaces;
  }

  /** A second sanitize changes nothing and reports no repair. */
  lemma SanitizeIdempotent(state: AppState, reserved: Option<nat>)
    requires Sanitize(state, reserved).Done?
    ensures var once := Sanitize(state, reserved).state;
            Sanitize(once, reserved) == Done(once, false) && Sanitize(once, None) == Done(once, false)
  {
    hide AllClaims, SanitizeWorkspace;
    var once := Sanitize(state, reserved).state;
    ClearedTwice(state);
    assert Cleared(once).workspaces == Cleared(Cleared(state)).workspaces;
    assert Cleared(once) == once;
  }

  // ----- the whole load pipeline from the typed state on -----

  datatype Loaded = Corrupt | Restored(state: AppState, repaired: bool)

  function Load(placeholder: AppState, unknown: seq<nat>): Loaded {
    if !ValidApp(placeholder) then Corrupt
    else
      var stripped := Strip(placeholder, set id | id in unknown);
      if !ValidApp(stripped) then Corrupt
      else
        match Sanitize(stripped, if unknown == [] then None else Some(MaxOf(unknown)))
        case Refused => Corrupt
        case Done(state, repaired) => Restored(state, repaired)
  }

  method LoadState(placeholder: AppState, unknown: seq<nat>) returns (out: Loaded)
    ensures out == Load(placeholder, unknown)
  {
    hide ValidApp, Strip, Sanitize, MaxOf;
    var ok := ValidateApp(placeholder);
    if !ok {
      return Corrupt;
    }
    var stripped := RemoveUnknownTabs(placeholder, set id | id in unknown);
    ok := ValidateApp(stripped);
    if !ok {
      return Corrupt;
    }
    var sanitized := SanitizeState(stripped, if unknown == [] then None else Some(MaxOf(unknown)));
    match sanitized
    case Refused => out := Corrupt;
    case Done(state, repaired) => out := Restored(state, repaired);
  }

  /** `alloc_id`, n times. */
  function Alloc(state: AppState, n: nat): (seq<nat>, AppState) {
    if n == 0 then ([], state)
    else
      var (ids, s) := Alloc(state, n - 1);
      (ids + [s.nextId], s.(nextId := s.nextId + 1))
  }

  lemma {:induction false} AllocCounts(state: AppState, n: nat)
    ensures var (ids, s) := Alloc(state, n);
            && |ids| == n && s == state.(nextId := state.nextId + n)
            && forall i :: 0 <= i < n ==> ids[i] == state.nextId + i
  {
    if n > 0 {
      AllocCounts(state, n - 1);
    }
  }

  /** The largest id in use in the file or given to a tab that is removed from it. */
  function LargestId(placeholder: AppState, unknown: seq<nat>): nat { MaxOf(AllClaims(placeholder.workspaces) + unknown) }

  lemma SameMax(a: seq<nat>, b: seq<nat>)
    requires forall id :: id in a <==> id in b
    ensures MaxOf(a) == MaxOf(b)
  {
  }

  lemma MaxOfBoth(a: seq<nat>, b: seq<nat>)
    ensures MaxOf(a + b) == Max(MaxOf(a), MaxOf(b))
  {
    assert forall id :: id in a + b <==> id in a || id in b;
  }

  /** What sanitizing compares the counter with is that largest id: the removal hides none. */
  lemma SanitizeSeesLargest(placeholder: AppState, unknown: seq<nat>)
    ensures var cleared := Cleared(Strip(placeholder, set id | id in unknown));
            && Max(MaxOf(AllClaims(cleared.workspaces)), MaxOf(unknown)) == LargestId(placeholder, unknown)
            && cleared.nextId == placeholder.nextId
  {
    hide MaxOf, AllClaims, StripPanes;
    var gone := set id | id in unknown;
    var stripped := Strip(placeholder, gone);
    var before, after := AllClaims(placeholder.workspaces), AllClaims(stripped.workspaces);
    ClearedClaims(stripped);
    ClaimsThin(placeholder, gone);
    ThinnedDistinct(after, before);
    MaxOfBoth(after, unknown);
    assert forall id :: id in after + unknown <==> id in before + unknown;
    SameMax(after + unknown, before + unknown);
  }

  lemma NothingLargest()
    ensures MaxOf([]) == 0
  {
  }

  lemma ClearedKeepsWorkspaces(state: AppState, reserved: Option<nat>)
    requires Sanitize(state, reserved).Done?
    ensures Sanitize(state, reserved).state.workspaces == Cleared(state).workspaces
  {
  }

  lemma NewIds(placeholder: AppState, unknown: seq<nat>, state: AppState, n: nat)
    requires state.nextId > LargestId(placeholder, unknown)
    requires forall id :: id in AllClaims(state.workspaces) ==> id in AllClaims(placeholder.workspaces)
    ensures var ids := Alloc(state, n).0;
            forall i :: 0 <= i < |ids| ==>
              ids[i] !in AllClaims(placeholder.workspaces) && ids[i] !in AllClaims(state.workspaces) && ids[i] !in unknown
  {
    hide AllClaims, MaxOf;
    AllocCounts(state, n);
    var known := AllClaims(placeholder.workspaces) + unknown;
    assert forall id :: id in AllClaims(placeholder.workspaces) || id in unknown ==> id in known;
    assert forall id :: id in known ==> id <= MaxOf(known);
    assert forall i :: 0 <= i < n ==> Alloc(state, n).0[i] > MaxOf(known);
  }

  lemma LoadByClaims(placeholder: AppState, unknown: seq<nat>, n: nat)
    ensures Load(placeholder, unknown).Corrupt? <==>
              || !ValidApp(placeholder)
              || (placeholder.nextId <= LargestId(placeholder, unknown) && LargestId(placeholder, unknown) >= U64_MAX)
    ensures Load(placeholder, unknown).Restored? ==>
              var state := Load(placeholder, unknown).state;
              var ids := Alloc(state, n).0;
              && state.nextId == Max(placeholder.nextId, LargestId(placeholder, unknown) + 1)
              && ValidApp(state)
              && Distinct(ids)
              && forall i :: 0 <= i < |ids| ==>
                   ids[i] !in AllClaims(placeholder.workspaces) && ids[i] !in AllClaims(state.workspaces) && ids[i] !in unknown
  {
    hide ValidApp, AllClaims, Claims, PaneClaims, StripPane, MaxOf, Cleared, Strip;
    if ValidApp(placeholder) {
      var gone := set id | id in unknown;
      var stripped := Strip(placeholder, gone);
      var reserved := if unknown == [] then None else Some(MaxOf(unknown));
      NothingLargest();
      StripKeepsValid(placeholder, gone);
      SanitizeSeesLargest(placeholder, unknown);
      if Sanitize(stripped, reserved).Done? {
        var state := Sanitize(stripped, reserved).state;
        SanitizeKeepsValid(stripped, reserved);
        ClearedClaims(stripped);
        ClaimsThin(placeholder, gone);
        ThinnedDistinct(AllClaims(stripped.workspaces), AllClaims(placeholder.workspaces));
        ClearedKeepsWorkspaces(stripped, reserved);
        AllocCounts(state, n);
        NewIds(placeholder, unknown, state, n);
      }
    }
  }

  /** Nothing in the file bears an id that is not below `bound`, and no removed tab does. */
  ghost predicate AllBelow(placeholder: AppState, unknown: seq<nat>, bound: nat) {
    (forall id: nat :: InUse(placeholder, id) ==> id < bound) && forall id :: id in unknown ==> id < bound
  }

  /** The largest id is not below any that is in use or was removed, and is one of them. */
  lemma LargestMeaning(placeholder: AppState, unknown: seq<nat>)
    ensures var m := LargestId(placeholder, unknown);
            && AllBelow(placeholder, unknown, m + 1)
            && (m == 0 || InUse(placeholder, m) || m in unknown)
  {
    hide AllClaims, InUse;
    ClaimsMeaning(placeholder);
    var known := AllClaims(placeholder.workspaces) + unknown;
    assert forall id :: id in known <==> id in AllClaims(placeholder.workspaces) || id in unknown;
  }

  /** What a load gives, exactly. A file is refused if and only if its state before the removal
      is invalid or no id is left: something in use or removed bears an id that is not below the
      counter, and something bears the last id there is or one beyond it. Otherwise the
      counter stays as it was if it is positive and above all these ids, and comes to stand right
      after the largest (at 1 if there is none) if not; the restored state is valid; and every id allocated from then on is new:
      unlike every other, unlike that of any workspace, split, pane or tab before and after the
      load, and unlike that of any removed tab. */
  lemma RestoreSound(placeholder: AppState, unknown: seq<nat>, n: nat)
    ensures Load(placeholder, unknown).Corrupt? <==>
              || !ValidApp(placeholder)
              || (!AllBelow(placeholder, unknown, placeholder.nextId) && !AllBelow(placeholder, unknown, U64_MAX))
    ensures Load(placeholder, unknown).Restored? ==>
              var state := Load(placeholder, unknown).state;
              var ids := Alloc(state, n).0;
              && AllBelow(placeholder, unknown, state.nextId)
              && (if placeholder.nextId > 0 && AllBelow(placeholder, unknown, placeholder.nextId)
                  then state.nextId == placeholder.nextId
                  else state.nextId == 1 || (state.nextId > 1 && !AllBelow(placeholder, unknown, state.nextId - 1)))
              && ValidApp(state)
              && |ids| == n
              && (forall i, j :: 0 <= i < j < |ids| ==> ids[i] != ids[j])
              && forall i :: 0 <= i < |ids| ==>
                   !InUse(placeholder, ids[i]) && !InUse(state, ids[i]) && ids[i] !in unknown
  {
    hide ValidApp, AllClaims, InUse, Load, LargestId;
    LoadByClaims(placeholder, unknown, n);
    LargestMeaning(placeholder, unknown);
    ClaimsMeaning(placeholder);
    if Load(placeholder, unknown).Restored? {
      var state := Load(placeholder, unknown).state;
      ClaimsMeaning(state);
      AllocCounts(state, n);
    }
  }

  // ----- a gap the validation leaves -----

  /** No pane's own id field is among the next n ids handed out. */
  predicate FieldsAvoided(state: AppState, n: nat) {
    forall i, j :: 0 <= i < |state.workspaces| && 0 <= j < |state.workspaces[i].panes| ==>
      state.workspaces[i].panes[j].pane.id !in Alloc(state, n).0
  }

  predicate FieldsBelow(state: AppState, bound: nat) {
    forall i, j :: 0 <= i < |state.workspaces| && 0 <= j < |state.workspaces[i].panes| ==>
      state.workspaces[i].panes[j].pane.id < bound
  }

  lemma AvoidedExactlyBelow(state: AppState)
    ensures (forall n: nat :: FieldsAvoided(state, n)) <==> FieldsBelow(state, state.nextId)
  {
    if FieldsBelow(state, state.nextId) {
      forall n: nat ensures FieldsAvoided(state, n) {
        AllocCounts(state, n);
      }
    } else {
      var i, j :| 0 <= i < |state.workspaces| && 0 <= j < |state.workspaces[i].panes|
                  && state.workspaces[i].panes[j].pane.id >= state.nextId;
      var k := state.workspaces[i].panes[j].pane.id - state.nextId;
      AllocCounts(state, k + 1);
      assert Alloc(state, k + 1).0[k] == state.workspaces[i].panes[j].pane.id;
      assert !FieldsAvoided(state, k + 1);
    }
  }

  lemma FieldsKept(placeholder: AppState, unknown: seq<nat>, bound: nat)
    requires Load(placeholder, unknown).Restored?
    ensures FieldsBelow(Load(placeholder, unknown).state, bound) <==> FieldsBelow(placeholder, bound)
  {
    hide ValidApp, MaxOf, AllClaims, Survivors, ActiveGone, SanitizeTabs;
    var gone := set id | id in unknown;
    var state := Load(placeholder, unknown).state;
    assert state.workspaces == Cleared(Strip(placeholder, gone)).workspaces;
    assert |state.workspaces| == |placeholder.workspaces|;
    forall i, j | 0 <= i < |state.workspaces| && 0 <= j < |placeholder.workspaces[i].panes|
      ensures |state.workspaces[i].panes| == |placeholder.workspaces[i].panes|
           && state.workspaces[i].panes[j].pane.id == placeholder.workspaces[i].panes[j].pane.id
    {
    }
    forall i | 0 <= i < |state.workspaces| ensures |state.workspaces[i].panes| == |placeholder.workspaces[i].panes| {
    }
  }

  /** A pane also stores its id in a field of its own, which no check compares with its key
      in the map. Of a file that is restored, the ids handed out later avoid that field in all
      panes if and only if every such field in the file is below its counter or not above the
      largest id used or removed. */
  lemma PaneFieldsAvoided(placeholder: AppState, unknown: seq<nat>)
    requires Load(placeholder, unknown).Restored?
    ensures (forall n: nat :: FieldsAvoided(Load(placeholder, unknown).state, n)) <==>
            FieldsBelow(placeholder, Max(placeholder.nextId, LargestId(placeholder, unknown) + 1))
  {
    hide ValidApp, LargestId, FieldsAvoided;
    var state := Load(placeholder, unknown).state;
    LoadByClaims(placeholder, unknown, 0);
    AvoidedExactlyBelow(state);
    FieldsKept(placeholder, unknown, state.nextId);
  }

  lemma OnePane(pane: Pane, ws: Workspace)
    requires pane == Pane(3, [], None)
    requires ws == Workspace(1, "w", Leaf(2), [PaneEntry(2, pane)], 2, AgentIdle, None, None)
    ensures Claims(ws) == [1, 2] && ValidWorkspace(ws)
  {
    assert ws.panes[1..] == [];
    assert TabIds([]) == [];
    assert PaneClaims(ws.panes) == [2];
    assert Keys(ws.panes) == [2];
    assert 2 in Keys(ws.panes);
    assert Leaves(ws.layout) == [2];
  }

  /** A file in which it does not hold: pane 2 says of itself that it is pane 3, the file is
      restored unchanged, and the next id handed out is 3. */
  lemma PaneFieldMayCollide(pane: Pane, ws: Workspace, state: AppState)
    requires pane == Pane(3, [], None)
    requires ws == Workspace(1, "w", Leaf(2), [PaneEntry(2, pane)], 2, AgentIdle, None, None)
    requires state == AppState([ws], Some(1), 3, 0)
    ensures Load(state, []) == Restored(state, false)
    ensures Alloc(state, 1).0 == [pane.id]
  {
    OnePane(pane, ws);
    var wss := [ws];
    assert wss[1..] == [] && state.workspaces == wss;
    var none: set<nat> := set id | id in [];
    assert none == {};
    assert AllClaims(wss) == Claims(ws) + [];
    assert Strip(state, {}) == state by {
      assert StripPanes(ws.panes, {}) == ws.panes;
      assert Strip(state, {}).workspaces == state.workspaces;
    }
    assert Cleared(state) == state by {
      assert SanitizePanes(ws.panes) == ws.panes by {
        assert SanitizeTabs([]) == [];
      }
      assert Cleared(state).workspaces == state.workspaces;
    }
    assert ValidApp(state) by {
      assert state.workspaces[0].id == state.activeWorkspace.value;
    }
    assert MaxOf([2]) == 2 && [1, 2][1..] == [2];
    assert Alloc(state, 0).0 == [];
  }
}
