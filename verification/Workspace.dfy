/** The workspace supervisor: members are addressed by project tokens, their groups by
    `project/group`. */
module Workspace {
  import opened Common
  import opened Strings
  import Resolver

  datatype GroupState = GroupState(name: string, status: Resolver.Status, tasks: seq<string>, services: seq<string>)

  datatype DaemonState = DaemonState(groups: map<string, GroupState>, watchedFiles: nat, lastChange: Option<nat>)

  /** A member and what it answers when asked for its status: nothing usable, or its state. */
  datatype Member = Member(token: string, configPath: string, reply: Option<DaemonState>)

  datatype TokenError = EmptyName | SlashInName(name: string) | NoBasename

  datatype TargetError = EmptyProject | Malformed(name: string)

  /** A token is neither empty nor contains a slash. */
  predicate IsToken(s: string) {
    s != [] && '/' !in s
  }

  /** The configured name, or the name of the config's directory. */
  function ResolveToken(settingsName: Option<string>, directory: Option<string>): (r: Result<string, TokenError>)
    ensures var chosen := settingsName.GetOr(directory.GetOr(""));
            if chosen != [] && '/' !in chosen then r == Ok(chosen)
            else r == Err(if settingsName == Some("") then EmptyName
                          else if settingsName.Some? then SlashInName(chosen)
                          else NoBasename)
  {
    match settingsName
    case Some(name) =>
      if name == [] then Err(EmptyName) else if '/' in name then Err(SlashInName(name)) else Ok(name)
    case None =>
      match directory
      case Some(name) => if name != [] && '/' !in name then Ok(name) else Err(NoBasename)
      case None => Err(NoBasename)
  }

  function ParseQualified(qualified: string): Result<(string, string), TargetError> {
    match SplitOnce(qualified, '/')
    case Some((project, rest)) => if project != [] && rest != [] then Ok((project, rest)) else Err(Malformed(qualified))
    case None => Err(Malformed(qualified))
  }

  function ResolveTarget(project: Option<string>, field: string): Result<(string, string), TargetError> {
    match project
    case Some(p) => if p != [] then Ok((p, field)) else Err(EmptyProject)
    case None => ParseQualified(field)
  }

  function MemberByToken(members: seq<Member>, token: string): (r: Option<nat>)
    ensures r.Some? ==> r.value < |members| && members[r.value].token == token &&
                        forall i :: 0 <= i < r.value ==> members[i].token != token
    ensures r.None? ==> forall i :: 0 <= i < |members| ==> members[i].token != token
  {
    if members == [] then None
    else if members[0].token == token then Some(0)
    else
      match MemberByToken(members[1..], token)
      case Some(i) => Some(i + 1)
      case None => None
  }

  ghost predicate UniqueTokens(members: seq<Member>) {
    forall i, j :: 0 <= i < j < |members| ==> members[i].token != members[j].token
  }

  function MaxOption(a: Option<nat>, b: Option<nat>): Option<nat> {
    match (a, b)
    case (Some(x), Some(y)) => Some(if x < y then y else x)
    case (some, None) => some
    case (None, some) => some
  }

  // -------------------------------------------------------------------------
  // Specification of the merged status

  function Qualified(token: string, group: string): string {
    Join(token, '/', group)
  }

  /** What a member contributes for some of its groups. */
  function GroupEntries(token: string, groups: map<string, GroupState>, names: set<string>): map<string, GroupState> {
    map q | q in (set g | g in names :: Qualified(token, g)) && GroupOf(token, q) in groups ::
      groups[GroupOf(token, q)].(name := q)
  }

  /** The group part of a name qualified by `token`. */
  function GroupOf(token: string, q: string): string {
    if |token| < |q| then q[|token| + 1..] else []
  }

  lemma GroupOfQualified(token: string)
    ensures forall g :: GroupOf(token, Qualified(token, g)) == g
  {
  }

  /** The entries one member contributes. */
  function Entries(m: Member): map<string, GroupState> {
    match m.reply
    case Some(state) => GroupEntries(m.token, state.groups, state.groups.Keys)
    case None => map[m.token := Marker(m.token)]
  }

  function Marker(token: string): GroupState {
    GroupState(token, Resolver.Failed, [], [])
  }

  lemma EntriesOf(m: Member, g: string)
    requires m.reply.Some?
    ensures Qualified(m.token, g) in Entries(m) <==> g in m.reply.value.groups
    ensures g in m.reply.value.groups ==>
              Entries(m)[Qualified(m.token, g)] == m.reply.value.groups[g].(name := Qualified(m.token, g))
  {
  }

  lemma GroupEntriesAdd(token: string, groups: map<string, GroupState>, names: set<string>, g: string)
    requires g in groups
    ensures GroupEntries(token, groups, names + {g}) ==
            GroupEntries(token, groups, names)[Qualified(token, g) := groups[g].(name := Qualified(token, g))]
    ensures g !in names ==> Qualified(token, g) !in GroupEntries(token, groups, names)
  {
  }

  lemma {:induction false} GroupEntriesSize(token: string, groups: map<string, GroupState>, names: set<string>)
    requires names <= groups.Keys
    ensures |GroupEntries(token, groups, names)| == |names|
    decreases |names|
  {
    if names == {} {
    } else {
      var g :| g in names;
      GroupEntriesSize(token, groups, names - {g});
      GroupEntriesAdd(token, groups, names - {g}, g);
      assert names - {g} + {g} == names;
    }
  }

  /** Everything every member contributes. */
  function Merged(members: seq<Member>): map<string, GroupState> {
    if members == [] then map[] else Merged(members[..|members| - 1]) + Entries(members[|members| - 1])
  }

  function EntryCount(m: Member): nat {
    match m.reply case Some(state) => |state.groups| case None => 1
  }

  function TotalCount(members: seq<Member>): nat {
    if members == [] then 0 else TotalCount(members[..|members| - 1]) + EntryCount(members[|members| - 1])
  }

  function TotalWatched(members: seq<Member>): nat {
    if members == [] then 0
    else TotalWatched(members[..|members| - 1]) +
         match members[|members| - 1].reply case Some(state) => state.watchedFiles case None => 0
  }

  /** The token a merged key belongs to: what stands before its first slash, if it has one. */
  function OwnerOf(key: string): string {
    match SplitOnce(key, '/') case Some((token, _)) => token case None => key
  }

  lemma EntriesOwned(m: Member, key: string)
    requires IsToken(m.token) && key in Entries(m)
    ensures OwnerOf(key) == m.token
    ensures m.reply.Some? ==> key == Qualified(m.token, GroupOf(m.token, key))
  {
    if m.reply.Some? {
      GroupOfQualified(m.token);
      SplitJoin(m.token, '/', GroupOf(m.token, key));
    }
  }

  ghost predicate Addressable(members: seq<Member>) {
    UniqueTokens(members) && forall i :: 0 <= i < |members| ==> IsToken(members[i].token)
  }

  lemma InitAddressable(members: seq<Member>)
    requires Addressable(members) && members != []
    ensures Addressable(members[..|members| - 1])
    ensures forall i, key :: 0 <= i < |members| - 1 && key in Entries(members[i]) ==>
              key !in Entries(members[|members| - 1])
  {
    hide Entries, IsToken;
    var last := members[|members| - 1];
    forall i, key | 0 <= i < |members| - 1 && key in Entries(members[i]) ensures key !in Entries(last) {
      EntriesOwned(members[i], key);
      if key in Entries(last) {
        EntriesOwned(last, key);
      }
    }
  }

  lemma {:induction false} EntryMerged(members: seq<Member>, i: nat, key: string)
    requires Addressable(members) && i < |members| && key in Entries(members[i])
    ensures key in Merged(members) && Merged(members)[key] == Entries(members[i])[key]
  {
    hide Entries, Addressable;
    InitAddressable(members);
    if i < |members| - 1 {
      EntryMerged(members[..|members| - 1], i, key);
    }
  }

  lemma {:induction false} MergedEntry(members: seq<Member>, key: string) returns (i: nat)
    requires key in Merged(members)
    ensures i < |members| && key in Entries(members[i])
  {
    hide Entries;
    i := |members| - 1;
    if key !in Entries(members[i]) {
      i := MergedEntry(members[..|members| - 1], key);
    }
  }

  lemma {:induction false} MergedSize(members: seq<Member>)
    requires Addressable(members)
    ensures |Merged(members)| == TotalCount(members)
  {
    if members == [] {
    } else {
      var init, last := members[..|members| - 1], members[|members| - 1];
      InitAddressable(members);
      MergedSize(init);
      EntriesSize(last);
      hide Entries, Addressable, EntryCount;
      forall key | key in Merged(init) ensures key !in Entries(last) {
        var i := MergedEntry(init, key);
        assert key in Entries(members[i]);
      }
      DisjointSum(Merged(init), Entries(last));
    }
  }

  lemma EntriesSize(m: Member)
    ensures |Entries(m)| == EntryCount(m)
  {
    if m.reply.Some? {
      GroupEntriesSize(m.token, m.reply.value.groups, m.reply.value.groups.Keys);
    }
  }

  /** No member overwrites another's entries: all of them are there, and nothing else, so
      they add up. */
  lemma NothingOverwritten(members: seq<Member>)
    requires Addressable(members)
    ensures |Merged(members)| == TotalCount(members)
    ensures forall i, key :: 0 <= i < |members| && key in Entries(members[i]) ==>
              key in Merged(members) && Merged(members)[key] == Entries(members[i])[key]
    ensures forall key :: key in Merged(members) ==> exists i :: 0 <= i < |members| && key in Entries(members[i])
  {
    hide Entries, Merged, Addressable;
    MergedSize(members);
    forall i, key | 0 <= i < |members| && key in Entries(members[i])
      ensures key in Merged(members) && Merged(members)[key] == Entries(members[i])[key]
    {
      EntryMerged(members, i, key);
    }
    forall key | key in Merged(members) ensures exists i :: 0 <= i < |members| && key in Entries(members[i]) {
      var i := MergedEntry(members, key);
    }
  }

  lemma DisjointSum(a: map<string, GroupState>, b: map<string, GroupState>)
    requires a.Keys !! b.Keys
    ensures |a + b| == |a| + |b|
  {
  }

  /** What a routed request reaches: the member with the token, and the group named to it. */
  function Route(members: seq<Member>, project: Option<string>, field: string): Option<(nat, string)> {
    match ResolveTarget(project, field)
    case Err(_) => None
    case Ok((token, group)) =>
      match MemberByToken(members, token)
      case None => None
      case Some(i) => Some((i, group))
  }

  lemma MemberFound(members: seq<Member>, i: nat)
    requires UniqueTokens(members) && i < |members|
    ensures MemberByToken(members, members[i].token) == Some(i)
  {
  }

  /** A qualified name leads back to the member and group it was made from, slashes in the
      group's name included, exactly when the group has a name at all. */
  lemma QualifiedRoutesBack(members: seq<Member>, i: nat, group: string)
    requires Addressable(members) && i < |members|
    ensures Route(members, None, Qualified(members[i].token, group)) == Some((i, group)) <==> group != []
    ensures Route(members, Some(members[i].token), group) == Some((i, group))
  {
    SplitJoin(members[i].token, '/', group);
    MemberFound(members, i);
  }

  /** A key of the merged status routes to a group exactly when a reachable member reported
      that group under it; the marker of an unreachable member routes nowhere. */
  lemma MergedKeysRoute(members: seq<Member>, key: string, i: nat, group: string)
    requires Addressable(members) && i < |members|
    requires Route(members, None, key) == Some((i, group))
    ensures key in Merged(members) <==> members[i].reply.Some? && group in members[i].reply.value.groups
    ensures key in Merged(members) ==> Merged(members)[key] == members[i].reply.value.groups[group].(name := key)
  {
    hide Entries, Merged, UniqueTokens;
    RouteIsQualified(members, key, i, group);
    if members[i].reply.Some? {
      EntriesOf(members[i], group);
      if group in members[i].reply.value.groups {
        EntryMerged(members, i, key);
      }
    }
    if key in Merged(members) {
      var j := MergedEntry(members, key);
      EntriesOwned(members[j], key);
      SplitJoin(members[i].token, '/', group);
      SameToken(members, i, j);
      MarkerHasNoSlash(members[i], key);
    }
  }

  lemma RouteIsQualified(members: seq<Member>, key: string, i: nat, group: string)
    requires Route(members, None, key) == Some((i, group))
    ensures i < |members| && key == Qualified(members[i].token, group)
  {
  }

  lemma SameToken(members: seq<Member>, i: nat, j: nat)
    requires UniqueTokens(members) && i < |members| && j < |members| && members[i].token == members[j].token
    ensures i == j
  {
  }

  lemma MarkerHasNoSlash(m: Member, key: string)
    requires IsToken(m.token) && '/' in key && key in Entries(m)
    ensures m.reply.Some?
  {
  }

  lemma MarkersRouteNowhere(members: seq<Member>, i: nat)
    requires Addressable(members) && i < |members| && members[i].reply.None?
    ensures members[i].token in Merged(members)
    ensures var shown := Merged(members)[members[i].token];
            && shown.name == members[i].token && shown.status == Resolver.Failed
            && shown.tasks == [] && shown.services == []
    ensures Route(members, None, members[i].token).None?
  {
    EntryMerged(members, i, members[i].token);
  }

  /** Watched files add up over the members: the total of two lists is the sum of the totals,
      and one member counts what it reports, if it does. */
  lemma {:induction false} WatchedAddUp(a: seq<Member>, b: seq<Member>)
    ensures TotalWatched(a + b) == TotalWatched(a) + TotalWatched(b)
    ensures forall m: Member :: m.reply.Some? ==> TotalWatched([m]) == m.reply.value.watchedFiles
    ensures forall m: Member :: m.reply.None? ==> TotalWatched([m]) == 0
  {
    assert forall m: Member :: [m][..0] == [];
    if b == [] {
      assert a + b == a;
    } else {
      assert (a + b)[..|a + b| - 1] == a + b[..|b| - 1];
      WatchedAddUp(a, b[..|b| - 1]);
    }
  }

  /** A target is given as a project and a name, or as `project/name`; nothing else resolves. */
  lemma TargetsResolve(field: string)
    ensures forall p, g :: ResolveTarget(None, field) == Ok((p, g)) <==>
              field == p + "/" + g && '/' !in p && p != [] && g != []
    ensures ResolveTarget(None, field).Err? ==> ResolveTarget(None, field) == Err(Malformed(field))
    ensures forall p :: ResolveTarget(Some(p), field) == if p != [] then Ok((p, field)) else Err(EmptyProject)
  {
    forall p, g ensures ResolveTarget(None, field) == Ok((p, g)) <==>
                          field == p + "/" + g && '/' !in p && p != [] && g != []
    {
      assert Join(p, '/', g) == p + "/" + g;
      SplitJoin(p, '/', g);
    }
  }

  // -------------------------------------------------------------------------

  class Supervisor {
    var members: seq<Member>

    constructor (members: seq<Member>)
      ensures this.members == members
    {
      this.members := members;
    }

    /** Accepts the working set exactly when no two members share a token; otherwise names
        two that do. */
    method CheckTokenUniqueness() returns (clash: Option<(nat, nat)>)
      ensures clash.None? <==> UniqueTokens(members)
      ensures clash.Some? ==> clash.value.0 < clash.value.1 < |members| &&
                              members[clash.value.0].token == members[clash.value.1].token
    {
      var seen: map<string, nat> := map[];
      for i := 0 to |members|
        invariant forall t :: t in seen ==> seen[t] < i && members[seen[t]].token == t
        invariant forall j :: 0 <= j < i ==> members[j].token in seen
        invariant UniqueTokens(members[..i])
      {
        if members[i].token in seen {
          return Some((seen[members[i].token], i));
        }
        seen := seen[members[i].token := i];
      }
      assert members[..|members|] == members;
      return None;
    }

    /** Asks every member and merges what the reachable ones report. */
    method AggregateStatus() returns (merged: DaemonState)
      ensures merged.groups == Merged(members) && merged.watchedFiles == TotalWatched(members)
      ensures forall m :: m in members && m.reply.Some? && m.reply.value.lastChange.Some? ==>
                merged.lastChange.Some? && m.reply.value.lastChange.value <= merged.lastChange.value
      ensures merged.lastChange.Some? ==>
                exists m :: m in members && m.reply.Some? && m.reply.value.lastChange == merged.lastChange
    {
      merged := DaemonState(map[], 0, None);
      for i := 0 to |members|
        invariant merged.groups == Merged(members[..i]) && merged.watchedFiles == TotalWatched(members[..i])
        invariant LatestChange(members[..i], merged.lastChange)
      {
        hide Merged, TotalWatched, LatestChange, Entries, LastChange, MaxOption;
        MergedOneMore(members, i, merged.lastChange);
        merged := MergeMember(merged, members[i]);
      }
      assert members[..|members|] == members;
      LatestByField(members, merged.lastChange);
    }
  }

  method MergeMember(merged: DaemonState, m: Member) returns (r: DaemonState)
    ensures r.groups == merged.groups + Entries(m)
    ensures r.watchedFiles ==
            merged.watchedFiles + (match m.reply case Some(state) => state.watchedFiles case None => 0)
    ensures r.lastChange == MaxOption(merged.lastChange, LastChange(m))
  {
    match m.reply {
      case Some(state) =>
        var groups := MergeGroups(merged.groups, m.token, state.groups);
        var lastChange := MaxOption(merged.lastChange, state.lastChange);
        r := DaemonState(groups, merged.watchedFiles + state.watchedFiles, lastChange);
      case None =>
        MergeUpdate(merged.groups, map[], m.token, Marker(m.token));
        r := merged.(groups := merged.groups[m.token := Marker(m.token)]);
    }
  }

  lemma MergeUpdate(a: map<string, GroupState>, b: map<string, GroupState>, k: string, v: GroupState)
    ensures (a + b)[k := v] == a + b[k := v] && a + map[] == a
  {
  }

  function LastChange(m: Member): Option<nat> {
    match m.reply case Some(state) => state.lastChange case None => None
  }

  /** `latest` is the latest change any member reports, if one does. */
  ghost predicate LatestChange(members: seq<Member>, latest: Option<nat>) {
    && (forall m :: m in members && LastChange(m).Some? ==> latest.Some? && LastChange(m).value <= latest.value)
    && (latest.Some? ==> exists m :: m in members && LastChange(m) == latest)
  }

  lemma LatestByField(members: seq<Member>, latest: Option<nat>)
    requires LatestChange(members, latest)
    ensures forall m :: m in members && m.reply.Some? && m.reply.value.lastChange.Some? ==>
              latest.Some? && m.reply.value.lastChange.value <= latest.value
    ensures latest.Some? ==> exists m :: m in members && m.reply.Some? && m.reply.value.lastChange == latest
  {
    forall m | m in members && m.reply.Some? ensures LastChange(m) == m.reply.value.lastChange {
    }
    if latest.Some? {
      var m :| m in members && LastChange(m) == latest;
    }
  }

  lemma MergedOneMore(members: seq<Member>, i: nat, latest: Option<nat>)
    requires i < |members| && LatestChange(members[..i], latest)
    ensures Merged(members[..i + 1]) == Merged(members[..i]) + Entries(members[i])
    ensures members[i].reply.None? ==> Entries(members[i]) == map[members[i].token := Marker(members[i].token)]
    ensures TotalWatched(members[..i + 1]) ==
            TotalWatched(members[..i]) + (match members[i].reply case Some(state) => state.watchedFiles case None => 0)
    ensures LatestChange(members[..i + 1], MaxOption(latest, LastChange(members[i])))
  {
    hide LatestChange, MaxOption, LastChange;
    assert members[..i + 1][..i] == members[..i] && members[..i + 1] == members[..i] + [members[i]];
    LatestOneMore(members[..i], members[i], latest);
  }

  lemma LatestOneMore(members: seq<Member>, m: Member, latest: Option<nat>)
    requires LatestChange(members, latest)
    ensures LatestChange(members + [m], MaxOption(latest, LastChange(m)))
  {
  }

  /** Adds a member's groups under their qualified names, in whatever order they come. */
  method MergeGroups(merged: map<string, GroupState>, token: string, groups: map<string, GroupState>)
    returns (r: map<string, GroupState>)
    ensures r == merged + GroupEntries(token, groups, groups.Keys)
  {
    r := merged;
    var names := groups.Keys;
    assert GroupEntries(token, groups, {}) == map[] && merged + map[] == merged && groups.Keys - names == {};
    while names != {}
      invariant names <= groups.Keys && r == merged + GroupEntries(token, groups, groups.Keys - names)
    {
      hide GroupEntries, Qualified;
      var name :| name in names;
      GroupEntriesAdd(token, groups, groups.Keys - names, name);
      assert groups.Keys - (names - {name}) == groups.Keys - names + {name};
      var qualified := Qualified(token, name);
      var entry := groups[name].(name := qualified);
      MergeUpdate(merged, GroupEntries(token, groups, groups.Keys - names), qualified, entry);
      names := names - {name};
      r := r[qualified := entry];
    }
    assert groups.Keys - {} == groups.Keys;
  }
}
