/** Users, their sessions and their credentials, with hot replacement of the whole user list. */
module ProxyCore {
  import opened Common

  datatype Limits = Limits(
    uploadBps: Option<nat>, downloadBps: Option<nat>, quota: Option<nat>,
    maxSessions: Option<nat>, maxIps: Option<nat>)

  /** One line of a user list; a user with several credentials has several lines. */
  datatype Entry = Entry(id: string, credential: string, limits: Limits)

  datatype User = User(
    credentials: set<string>, upload: nat, download: nat, total: nat,
    sessions: map<nat, Option<string>>, online: nat, onlineIps: nat, limits: Limits)

  datatype Event =
    | UsersReplaced(users: seq<string>)
    | Opened(user: string, session: nat)
    | Closed(user: string, session: nat)
    | Cancelled(user: string, session: nat)

  datatype State = State(
    users: map<string, User>, credentials: map<string, string>, lastSession: nat, events: seq<Event>)

  const EMPTY: State := State(map[], map[], 0, [])

  // ---- sessions of one user

  function Ips(sessions: map<nat, Option<string>>): set<string> {
    set k | k in sessions && sessions[k].Some? :: sessions[k].value
  }

  function Recount(u: User): User {
    u.(online := |u.sessions|, onlineIps := |Ips(u.sessions)|)
  }

  predicate RoomForSession(u: User) {
    u.limits.maxSessions.Some? && u.limits.maxSessions.value > 0 ==> |u.sessions| < u.limits.maxSessions.value
  }

  predicate RoomForIp(u: User, ip: Option<string>) {
    u.limits.maxIps.Some? && u.limits.maxIps.value > 0 && ip.Some? && ip.value !in Ips(u.sessions)
    ==> |Ips(u.sessions) + {ip.value}| <= u.limits.maxIps.value
  }

  function WithSession(u: User, sid: nat, ip: Option<string>): User {
    Recount(u.(sessions := u.sessions[sid := ip]))
  }

  function WithoutSession(u: User, sid: nat): User {
    Recount(u.(sessions := u.sessions - {sid}))
  }

  function WithoutSessions(u: User): User {
    u.(sessions := map[], online := 0, onlineIps := 0)
  }

  /** The published counters are those of the session table. */
  predicate Counted(u: User) {
    u.online == |u.sessions| && u.onlineIps == |Ips(u.sessions)|
  }

  predicate Within(u: User) {
    && (u.limits.maxSessions.Some? && u.limits.maxSessions.value > 0 ==> |u.sessions| <= u.limits.maxSessions.value)
    && (u.limits.maxIps.Some? && u.limits.maxIps.value > 0 ==> |Ips(u.sessions)| <= u.limits.maxIps.value)
  }

  /** Opening a session where there is room keeps the limits. */
  lemma OpenKeepsWithin(u: User, sid: nat, ip: Option<string>)
    requires Within(u) && sid !in u.sessions && RoomForSession(u) && RoomForIp(u, ip)
    ensures Within(WithSession(u, sid, ip)) && Counted(WithSession(u, sid, ip))
  {
    var after := u.sessions[sid := ip];
    assert after.Keys == u.sessions.Keys + {sid};
    assert |after| == |u.sessions| + 1;
    if ip.Some? {
      assert Ips(after) <= Ips(u.sessions) + {ip.value};
      SubsetSize(Ips(after), Ips(u.sessions) + {ip.value});
      if ip.value in Ips(u.sessions) { assert Ips(u.sessions) + {ip.value} == Ips(u.sessions); }
    } else {
      SubsetSize(Ips(after), Ips(u.sessions));
    }
  }

  lemma CloseKeepsWithin(u: User, sid: nat)
    requires Within(u)
    ensures Within(WithoutSession(u, sid)) && Counted(WithoutSession(u, sid))
  {
    var after := u.sessions - {sid};
    assert after.Keys == u.sessions.Keys - {sid};
    SubsetSize(after.Keys, u.sessions.Keys);
    SubsetSize(Ips(after), Ips(u.sessions));
  }

  lemma CancelKeepsWithin(u: User)
    ensures Within(WithoutSessions(u)) && Counted(WithoutSessions(u))
  {
  }

  // ---- user lists

  predicate IsSpace(c: char) {
    var n := c as int;
    9 <= n <= 13 || n == 0x20 || n == 0x85 || n == 0xA0 || n == 0x1680 || 0x2000 <= n <= 0x200A
    || n == 0x2028 || n == 0x2029 || n == 0x202F || n == 0x205F || n == 0x3000
  }

  predicate Blank(s: string) {
    forall i :: 0 <= i < |s| ==> IsSpace(s[i])
  }

  function Ids(es: seq<Entry>): set<string> {
    if es == [] then {} else Ids(es[..|es| - 1]) + {es[|es| - 1].id}
  }

  /** The users in the order of their first lines. */
  function IdOrder(es: seq<Entry>): seq<string> {
    if es == [] then [] else
    var init, last := es[..|es| - 1], es[|es| - 1];
    if last.id in Ids(init) then IdOrder(init) else IdOrder(init) + [last.id]
  }

  function AllCredentials(es: seq<Entry>): set<string> {
    if es == [] then {} else AllCredentials(es[..|es| - 1]) + {es[|es| - 1].credential}
  }

  function CredentialsOf(es: seq<Entry>, id: string): set<string> {
    if es == [] then {} else
    var last := es[|es| - 1];
    CredentialsOf(es[..|es| - 1], id) + (if last.id == id then {last.credential} else {})
  }

  /** The limits of a user are those of its first line. */
  function LimitsOf(es: seq<Entry>, id: string): Limits
    requires id in Ids(es)
  {
    var init := es[..|es| - 1];
    if id in Ids(init) then LimitsOf(init, id) else es[|es| - 1].limits
  }

  function CredentialMap(es: seq<Entry>): (m: map<string, string>)
    ensures m.Keys == AllCredentials(es)
  {
    if es == [] then map[] else CredentialMap(es[..|es| - 1])[es[|es| - 1].credential := es[|es| - 1].id]
  }

  /** A list is accepted if no name is blank, no credential is there twice, and all lines of a user
      agree on its limits. */
  predicate Valid(es: seq<Entry>) {
    es == [] ||
    (var init, last := es[..|es| - 1], es[|es| - 1];
     && Valid(init)
     && !Blank(last.id) && !Blank(last.credential)
     && last.credential !in AllCredentials(init)
     && (last.id in Ids(init) ==> LimitsOf(init, last.id) == last.limits))
  }

  /** Acceptance said of the list as a whole. */
  ghost predicate WellFormed(es: seq<Entry>) {
    && (forall i :: 0 <= i < |es| ==> !Blank(es[i].id) && !Blank(es[i].credential))
    && (forall i, j :: 0 <= i < j < |es| ==> es[i].credential != es[j].credential)
    && (forall i, j :: 0 <= i < j < |es| && es[i].id == es[j].id ==> es[i].limits == es[j].limits)
  }

  lemma {:induction false} ListedCredentials(es: seq<Entry>, cr: string)
    ensures cr in AllCredentials(es) <==> exists i :: 0 <= i < |es| && es[i].credential == cr
  {
    if es != [] {
      var init := es[..|es| - 1];
      ListedCredentials(init, cr);
      if i :| 0 <= i < |init| && init[i].credential == cr { assert es[i].credential == cr; }
    }
  }

  lemma {:induction false} FirstLimits(es: seq<Entry>, id: string)
    ensures id in Ids(es) <==> exists i :: 0 <= i < |es| && es[i].id == id
    ensures id in Ids(es) ==> exists i :: 0 <= i < |es| && es[i].id == id && es[i].limits == LimitsOf(es, id)
  {
    if es != [] {
      var init := es[..|es| - 1];
      FirstLimits(init, id);
      if i :| 0 <= i < |init| && init[i].id == id && id in Ids(init) && init[i].limits == LimitsOf(init, id) {
        assert es[i].id == id && es[i].limits == LimitsOf(es, id);
      }
    }
  }

  /** The running test of the loop accepts exactly the well-formed lists. */
  lemma {:induction false} ValidMeans(es: seq<Entry>)
    ensures Valid(es) <==> WellFormed(es)
  {
    if es != [] {
      var init, last := es[..|es| - 1], es[|es| - 1];
      ValidMeans(init);
      ListedCredentials(init, last.credential);
      FirstLimits(init, last.id);
      if Valid(es) { ExtendWellFormed(es); } else if WellFormed(es) { InitWellFormed(es); }
    }
  }

  lemma ExtendWellFormed(es: seq<Entry>)
    requires es != [] && WellFormed(es[..|es| - 1])
    requires !Blank(es[|es| - 1].id) && !Blank(es[|es| - 1].credential)
    requires es[|es| - 1].credential !in AllCredentials(es[..|es| - 1])
    requires es[|es| - 1].id in Ids(es[..|es| - 1]) ==> LimitsOf(es[..|es| - 1], es[|es| - 1].id) == es[|es| - 1].limits
    ensures WellFormed(es)
  {
    var init, last := es[..|es| - 1], es[|es| - 1];
    forall i, j | 0 <= i < j < |es|
      ensures es[i].credential != es[j].credential && (es[i].id == es[j].id ==> es[i].limits == es[j].limits)
    {
      assert es[i] == init[i];
      if j == |es| - 1 {
        ListedCredentials(init, init[i].credential);
        if init[i].id == last.id { FirstLimits(init, last.id); SameLimits(init, i, last.id); }
      } else {
        assert es[j] == init[j];
      }
    }
    forall i | 0 <= i < |es| ensures !Blank(es[i].id) && !Blank(es[i].credential) {
      assert i < |init| ==> es[i] == init[i];
    }
  }

  lemma SameLimits(es: seq<Entry>, i: nat, id: string)
    requires WellFormed(es) && i < |es| && es[i].id == id && id in Ids(es)
    ensures es[i].limits == LimitsOf(es, id)
  {
    FirstLimits(es, id);
    var k :| 0 <= k < |es| && es[k].id == id && es[k].limits == LimitsOf(es, id);
    assert i < k || k <= i;
  }

  lemma InitWellFormed(es: seq<Entry>)
    requires es != [] && WellFormed(es)
    ensures WellFormed(es[..|es| - 1])
    ensures es[|es| - 1].credential !in AllCredentials(es[..|es| - 1])
    ensures es[|es| - 1].id in Ids(es[..|es| - 1]) ==> LimitsOf(es[..|es| - 1], es[|es| - 1].id) == es[|es| - 1].limits
  {
    var init, last := es[..|es| - 1], es[|es| - 1];
    assert forall i :: 0 <= i < |init| ==> init[i] == es[i];
    ListedCredentials(init, last.credential);
    FirstLimits(init, last.id);
  }

  /** The users' credential sets divide up the credentials, as the index says. */
  lemma {:induction false} CredentialsPartition(es: seq<Entry>, c: string, id: string)
    requires Valid(es)
    ensures c in CredentialsOf(es, id) <==> c in CredentialMap(es) && CredentialMap(es)[c] == id
    ensures c in CredentialMap(es) ==> CredentialMap(es)[c] in Ids(es)
  {
    if es != [] {
      CredentialsPartition(es[..|es| - 1], c, id);
      CredentialsIndexed(es[..|es| - 1], c, id);
    }
  }

  lemma {:induction false} CredentialsIndexed(es: seq<Entry>, c: string, id: string)
    ensures c in CredentialsOf(es, id) ==> c in AllCredentials(es)
  {
    if es != [] {
      CredentialsIndexed(es[..|es| - 1], c, id);
    }
  }

  // ---- replacement

  function NewUser(credentials: set<string>, limits: Limits): User {
    User(credentials, 0, 0, 0, map[], 0, 0, limits)
  }

  function UpdatedUser(u: User, credentials: set<string>, limits: Limits): User {
    var u1 := if u.credentials != credentials then WithoutSessions(u).(credentials := credentials) else u;
    u1.(limits := limits)
  }

  function UserAfter(c: State, es: seq<Entry>, id: string): User
    requires id in Ids(es)
  {
    if id in c.users then UpdatedUser(c.users[id], CredentialsOf(es, id), LimitsOf(es, id))
    else NewUser(CredentialsOf(es, id), LimitsOf(es, id))
  }

  /** A user's sessions go if the user goes or its credentials change. */
  predicate Drops(c: State, es: seq<Entry>, id: string) {
    id in c.users && (id !in Ids(es) || c.users[id].credentials != CredentialsOf(es, id))
  }

  function Gone(c: State, es: seq<Entry>): set<string> {
    set id | id in c.users && Drops(c, es, id)
  }

  /** Every session of the given users cancelled, each once, in some order. */
  ghost predicate CancelLog(c: State, gone: set<string>, log: seq<Event>) {
    && (forall i :: 0 <= i < |log| ==>
          log[i].Cancelled? && log[i].user in gone && log[i].user in c.users
          && log[i].session in c.users[log[i].user].sessions)
    && (forall id, sid :: id in gone && id in c.users && sid in c.users[id].sessions ==> Cancelled(id, sid) in log)
    && (forall i, j :: 0 <= i < j < |log| ==> log[i] != log[j])
  }

  /** What a successful replacement does. */
  ghost predicate Replaced(c: State, es: seq<Entry>, c1: State) {
    && Valid(es)
    && c1.users.Keys == Ids(es)
    && (forall id :: id in c1.users ==> c1.users[id] == UserAfter(c, es, id))
    && c1.credentials == CredentialMap(es)
    && c1.lastSession == c.lastSession
    && exists log :: CancelLog(c, Gone(c, es), log) && c1.events == c.events + log + [UsersReplaced(IdOrder(es))]
  }

  // ---- steps

  datatype Step =
    | Open(user: string, ip: Option<string>)
    | Close(user: string, session: nat)
    | Cancel(user: string)
    | SetLimits(user: string, limits: Limits)
    | Replace(entries: seq<Entry>)

  /** Opening takes a fresh number even when it is then refused. */
  function OpenResult(c: State, id: string, ip: Option<string>): State {
    if id !in c.users then c else
    var u, sid := c.users[id], c.lastSession + 1;
    if RoomForSession(u) && RoomForIp(u, ip) then
      c.(users := c.users[id := WithSession(u, sid, ip)], lastSession := sid, events := c.events + [Opened(id, sid)])
    else c.(lastSession := sid)
  }

  function CloseResult(c: State, id: string, sid: nat): State {
    if id !in c.users then c else
    var u := c.users[id];
    c.(users := c.users[id := WithoutSession(u, sid)],
       events := if sid in u.sessions then c.events + [Closed(id, sid)] else c.events)
  }

  ghost predicate CancelDone(c: State, id: string, c1: State) {
    if id !in c.users then c1 == c
    else exists log :: CancelLog(c, {id}, log)
                       && c1 == c.(users := c.users[id := WithoutSessions(c.users[id])], events := c.events + log)
  }

  ghost predicate Next(c: State, s: Step, c1: State) {
    match s
    case Open(id, ip) => c1 == OpenResult(c, id, ip)
    case Close(id, sid) => c1 == CloseResult(c, id, sid)
    case Cancel(id) => CancelDone(c, id, c1)
    case SetLimits(id, limits) =>
      c1 == if id in c.users then c.(users := c.users[id := c.users[id].(limits := limits)]) else c
    case Replace(es) => if Valid(es) then Replaced(c, es, c1) else c1 == c
  }

  /** A session opens exactly if the user exists, has fewer sessions than it may, and brings no address beyond
      those it may; a limit of zero is none. The number is the next one, and nothing else changes. */
  lemma OpenedExactly(c: State, id: string, ip: Option<string>)
    requires id in c.users && c.lastSession + 1 !in c.users[id].sessions
    ensures var u, sid, c1 := c.users[id], c.lastSession + 1, OpenResult(c, id, ip);
            var atMost := u.limits.maxSessions;
            var full := atMost.Some? && atMost.value > 0 && |u.sessions| >= atMost.value;
            var newIp := ip.Some? && forall k :: k in u.sessions ==> u.sessions[k] != ip;
            var crowded := newIp && u.limits.maxIps.Some? && 0 < u.limits.maxIps.value <= |Ips(u.sessions)|;
            if full || crowded then c1 == c.(lastSession := sid)
            else
              && c1.users.Keys == c.users.Keys && (forall k :: k in c.users && k != id ==> c1.users[k] == c.users[k])
              && c1.users[id] == u.(sessions := u.sessions[sid := ip], online := |u.sessions| + 1,
                                    onlineIps := |Ips(u.sessions)| + (if newIp then 1 else 0))
              && c1.credentials == c.credentials && c1.lastSession == sid
              && c1.events == c.events + [Opened(id, sid)]
  {
    hide Ips;
    var u, sid := c.users[id], c.lastSession + 1;
    var after := u.sessions[sid := ip];
    assert after.Keys == u.sessions.Keys + {sid};
    IpsOfOneMore(u.sessions, sid, ip);
  }

  lemma IpsOfOneMore(sessions: map<nat, Option<string>>, sid: nat, ip: Option<string>)
    requires sid !in sessions
    ensures var newIp := ip.Some? && forall k :: k in sessions ==> sessions[k] != ip;
            && (ip.Some? ==> (newIp <==> ip.value !in Ips(sessions)))
            && |Ips(sessions[sid := ip])| == |Ips(sessions)| + (if newIp then 1 else 0)
            && (newIp ==> |Ips(sessions) + {ip.value}| == |Ips(sessions)| + 1)
  {
    hide Ips;
    IpsWith(sessions, sid, ip);
    if ip.Some? {
      IpListed(sessions, ip.value);
      if ip.value in Ips(sessions) { assert Ips(sessions) + {ip.value} == Ips(sessions); }
    }
  }

  lemma IpListed(sessions: map<nat, Option<string>>, x: string)
    ensures x in Ips(sessions) <==> exists k :: k in sessions && sessions[k] == Some(x)
  {
  }

  lemma IpsWith(sessions: map<nat, Option<string>>, sid: nat, ip: Option<string>)
    requires sid !in sessions
    ensures Ips(sessions[sid := ip]) == Ips(sessions) + if ip.Some? then {ip.value} else {}
  {
    hide Ips;
    var after, more := sessions[sid := ip], Ips(sessions) + if ip.Some? then {ip.value} else {};
    forall x ensures x in Ips(after) <==> x in more {
      IpListed(sessions, x);
      IpListed(after, x);
      if k :| k in sessions && sessions[k] == Some(x) { assert after[k] == Some(x); }
      if ip == Some(x) { assert after[sid] == Some(x); }
    }
  }

  predicate SameTraffic(u: User, u1: User) {
    u1.upload == u.upload && u1.download == u.download && u1.total == u.total
  }

  /** No step changes a user's traffic counters, and only a change of limits or a replacement changes its
      limits or credentials. */
  lemma StepKeepsUser(c: State, s: Step, c1: State, id: string)
    requires Next(c, s, c1) && id in c.users && id in c1.users
    ensures var u, u1 := c.users[id], c1.users[id];
            && SameTraffic(u, u1)
            && (!s.SetLimits? && !s.Replace? ==> u1.limits == u.limits && u1.credentials == u.credentials)
            && (s.SetLimits? ==> u1 == u.(limits := if s.user == id then s.limits else u.limits))
  {
    hide Ips, CancelLog, RoomForSession, RoomForIp, Replaced;
    match s
    case Open(user, ip) => if user != id { assert c1.users[id] == c.users[id]; }
    case Close(user, sid) => if user != id { assert c1.users[id] == c.users[id]; }
    case Cancel(user) => if user != id { assert c1.users[id] == c.users[id]; }
    case SetLimits(user, limits) => if user != id { assert c1.users[id] == c.users[id]; }
    case Replace(es) => if Valid(es) { ReplaceKeepsUser(c, es, c1, id); }
  }

  lemma ReplaceKeepsUser(c: State, es: seq<Entry>, c1: State, id: string)
    requires Replaced(c, es, c1) && id in c.users && id in c1.users
    ensures SameTraffic(c.users[id], c1.users[id])
  {
    hide CancelLog, CredentialsOf, LimitsOf, CredentialMap, Ids, Valid;
    assert c1.users[id] == UserAfter(c, es, id);
  }

  // ---- invariant

  ghost predicate UsersCounted(c: State) {
    forall id :: id in c.users ==> Counted(c.users[id])
  }

  /** Each credential belongs to exactly one user, the one the index names. */
  ghost predicate Indexed(c: State) {
    && (forall cr :: cr in c.credentials ==> c.credentials[cr] in c.users)
    && (forall id, cr ::
        id in c.users
        ==> (cr in c.users[id].credentials <==> cr in c.credentials && c.credentials[cr] == id))
  }

  function Opens(events: seq<Event>, sid: nat): nat {
    if events == [] then 0
    else (if events[0].Opened? && events[0].session == sid then 1 else 0) + Opens(events[1..], sid)
  }

  function Ends(events: seq<Event>, sid: nat): nat {
    if events == [] then 0 else
    var ends := (events[0].Closed? || events[0].Cancelled?) && events[0].session == sid;
    (if ends then 1 else 0) + Ends(events[1..], sid)
  }

  ghost predicate Live(c: State, sid: nat) {
    exists id :: id in c.users && sid in c.users[id].sessions
  }

  /** The log of one session number: opened at most once, ended at most once and only if opened, and
      live exactly in between. */
  ghost predicate Logged(c: State, sid: nat) {
    && Opens(c.events, sid) <= 1
    && Ends(c.events, sid) <= Opens(c.events, sid)
    && (Live(c, sid) <==> Opens(c.events, sid) == 1 && Ends(c.events, sid) == 0)
    && (sid > c.lastSession ==> Opens(c.events, sid) == 0)
  }

  /** No session number is in two users' tables. */
  ghost predicate Separate(c: State) {
    forall a, b, sid :: a in c.users && b in c.users && sid in c.users[a].sessions && sid in c.users[b].sessions
        ==> a == b
  }

  ghost predicate Inv(c: State) {
    UsersCounted(c) && Indexed(c) && Separate(c) && forall sid :: Logged(c, sid)
  }

  lemma {:induction false} CountsAppend(a: seq<Event>, b: seq<Event>, sid: nat)
    ensures Opens(a + b, sid) == Opens(a, sid) + Opens(b, sid)
    ensures Ends(a + b, sid) == Ends(a, sid) + Ends(b, sid)
  {
    if a == [] {
      assert a + b == b;
    } else {
      assert (a + b)[0] == a[0] && (a + b)[1..] == a[1..] + b;
      CountsAppend(a[1..], b, sid);
    }
  }

  lemma CountOne(a: seq<Event>, e: Event, sid: nat)
    ensures Opens(a + [e], sid) == Opens(a, sid) + (if e.Opened? && e.session == sid then 1 else 0)
    ensures Ends(a + [e], sid) == Ends(a, sid) + (if (e.Closed? || e.Cancelled?) && e.session == sid then 1 else 0)
  {
    CountsAppend(a, [e], sid);
    assert [e][1..] == [];
  }

  /** Distinct cancellations, one of them or none for a session number. */
  lemma {:induction false} CancelCount(log: seq<Event>, sid: nat)
    requires forall i :: 0 <= i < |log| ==> log[i].Cancelled?
    requires forall i, j :: 0 <= i < j < |log| ==> log[i] != log[j]
    requires forall i, j ::
             0 <= i < |log| && 0 <= j < |log| && log[i].session == sid && log[j].session == sid
             ==> log[i].user == log[j].user
    ensures Opens(log, sid) == 0
    ensures Ends(log, sid) == if exists i :: 0 <= i < |log| && log[i].session == sid then 1 else 0
  {
    if log != [] {
      var rest := log[1..];
      CancelCount(rest, sid);
      assert forall i :: 0 <= i < |rest| ==> rest[i] == log[i + 1];
      if log[0].session == sid {
        assert forall i :: 0 <= i < |rest| ==> rest[i].session != sid;
      } else if exists i :: 0 <= i < |rest| && rest[i].session == sid {
        var i :| 0 <= i < |rest| && rest[i].session == sid;
        assert log[i + 1].session == sid;
      }
    }
  }

  // ---- each step keeps the invariant

  lemma OpenLogged(c: State, id: string, ip: Option<string>, sid: nat)
    requires Logged(c, sid) && Logged(c, c.lastSession + 1) && id in c.users && RoomForSession(c.users[id])
             && RoomForIp(c.users[id], ip)
    ensures Logged(OpenResult(c, id, ip), sid)
  {
    var c1 := OpenResult(c, id, ip);
    var next := c.lastSession + 1;
    CountOne(c.events, Opened(id, next), sid);
    assert forall k :: k in c.users && k != id ==> c1.users[k] == c.users[k];
    if sid == next {
      assert sid in c1.users[id].sessions;
      assert Live(c1, sid);
    } else {
      assert sid in c1.users[id].sessions <==> sid in c.users[id].sessions;
      assert Live(c1, sid) <==> Live(c, sid);
    }
  }

  lemma NextIsFresh(c: State)
    requires forall sid :: Logged(c, sid)
    ensures !Live(c, c.lastSession + 1)
  {
    assert Logged(c, c.lastSession + 1);
  }

  /** A change to one user's sessions or limits does not touch the index or other users' counters. */
  lemma OneUserChanged(c: State, id: string, u: User, c1: State)
    requires UsersCounted(c) && Indexed(c) && id in c.users && Counted(u) && u.credentials == c.users[id].credentials
    requires c1.users == c.users[id := u] && c1.credentials == c.credentials
    ensures UsersCounted(c1) && Indexed(c1)
  {
    hide Counted;
    forall k | k in c1.users ensures Counted(c1.users[k]) && c1.users[k].credentials == c.users[k].credentials {
      assert c1.users[k] == if k == id then u else c.users[k];
    }
  }

  lemma FewerSessionsSeparate(c: State, id: string, u: User, c1: State)
    requires Separate(c) && id in c.users && u.sessions.Keys <= c.users[id].sessions.Keys
    requires c1.users == c.users[id := u]
    ensures Separate(c1)
  {
  }

  lemma OpenInv(c: State, id: string, ip: Option<string>)
    requires Inv(c)
    ensures Inv(OpenResult(c, id, ip))
  {
    hide Logged, Separate, UsersCounted, Indexed, Ips;
    var c1 := OpenResult(c, id, ip);
    if id in c.users && RoomForSession(c.users[id]) && RoomForIp(c.users[id], ip) {
      forall sid ensures Logged(c1, sid) { OpenLogged(c, id, ip, sid); }
      NextIsFresh(c);
      OpenSeparate(c, id, ip);
      OneUserChanged(c, id, WithSession(c.users[id], c.lastSession + 1, ip), c1);
    } else {
      forall sid ensures Logged(c1, sid) { RefusedLogged(c, c1, sid); }
      SameUsers(c, c1);
    }
  }

  lemma RefusedLogged(c: State, c1: State, sid: nat)
    requires Logged(c, sid) && c1.users == c.users && c1.events == c.events && c1.lastSession >= c.lastSession
    ensures Logged(c1, sid)
  {
  }

  lemma SameUsers(c: State, c1: State)
    requires UsersCounted(c) && Indexed(c) && Separate(c) && c1.users == c.users && c1.credentials == c.credentials
    ensures UsersCounted(c1) && Indexed(c1) && Separate(c1)
  {
  }

  lemma OpenSeparate(c: State, id: string, ip: Option<string>)
    requires Separate(c) && id in c.users && !Live(c, c.lastSession + 1)
    ensures Separate(OpenResult(c, id, ip))
  {
  }

  lemma CloseLogged(c: State, id: string, closed: nat, sid: nat)
    requires Separate(c) && Logged(c, sid) && id in c.users
    ensures Logged(CloseResult(c, id, closed), sid)
  {
    var c1 := CloseResult(c, id, closed);
    CountOne(c.events, Closed(id, closed), sid);
    assert forall k :: k in c.users && k != id ==> c1.users[k] == c.users[k];
    if sid == closed && sid in c.users[id].sessions {
      assert Live(c, sid);
      assert !Live(c1, sid);
    } else {
      assert sid in c1.users[id].sessions <==> sid in c.users[id].sessions;
      assert Live(c1, sid) <==> Live(c, sid);
    }
  }

  lemma CloseInv(c: State, id: string, closed: nat)
    requires Inv(c)
    ensures Inv(CloseResult(c, id, closed))
  {
    hide Logged, Separate, UsersCounted, Indexed, Ips;
    if id in c.users {
      var c1 := CloseResult(c, id, closed);
      forall sid ensures Logged(c1, sid) { CloseLogged(c, id, closed, sid); }
      OneUserChanged(c, id, WithoutSession(c.users[id], closed), c1);
      FewerSessionsSeparate(c, id, WithoutSession(c.users[id], closed), c1);
    }
  }

  /** What cancelling some users' sessions does to the log, however many users that is. */
  lemma CancelledLogged(c: State, gone: set<string>, log: seq<Event>, c1: State, sid: nat)
    requires Separate(c) && Logged(c, sid)
    requires CancelLog(c, gone, log)
    requires c1.lastSession == c.lastSession
    requires Opens(c1.events, sid) == Opens(c.events + log, sid) && Ends(c1.events, sid) == Ends(c.events + log, sid)
    requires Live(c1, sid) <==> exists id :: id in c.users && id !in gone && sid in c.users[id].sessions
    ensures Logged(c1, sid)
  {
    hide Separate;
    SameUser(c, log, sid);
    CancelCount(log, sid);
    CountsAppend(c.events, log, sid);
    if i :| 0 <= i < |log| && log[i].session == sid {
      var owner := log[i].user;
      assert Live(c, sid);
      OnlyOwner(c, owner, sid);
    } else {
      assert Live(c1, sid) <==> Live(c, sid) by {
        if id :| id in c.users && sid in c.users[id].sessions {
          if id in gone {
            assert Cancelled(id, sid) in log;
          }
        }
      }
    }
  }

  lemma OnlyOwner(c: State, owner: string, sid: nat)
    requires Separate(c) && owner in c.users && sid in c.users[owner].sessions
    ensures forall id :: id in c.users && sid in c.users[id].sessions ==> id == owner
  {
  }

  lemma SameUser(c: State, log: seq<Event>, sid: nat)
    requires Separate(c)
    requires forall i ::
             0 <= i < |log|
             ==> log[i].Cancelled? && log[i].user in c.users && log[i].session in c.users[log[i].user].sessions
    ensures forall i, j ::
            0 <= i < |log| && 0 <= j < |log| && log[i].session == sid && log[j].session == sid
            ==> log[i].user == log[j].user
  {
  }

  lemma CancelInv(c: State, id: string, c1: State)
    requires Inv(c) && CancelDone(c, id, c1)
    ensures Inv(c1)
  {
    hide Logged, Separate, UsersCounted, Indexed, Ips, CancelLog, Live;
    if id in c.users {
      var log :| CancelLog(c, {id}, log)
                 && c1 == c.(users := c.users[id := WithoutSessions(c.users[id])], events := c.events + log);
      var u := WithoutSessions(c.users[id]);
      CancelKeepsWithin(c.users[id]);
      OneUserChanged(c, id, u, c1);
      FewerSessionsSeparate(c, id, u, c1);
      forall sid ensures Logged(c1, sid) { CancelLogged(c, id, log, c1, sid); }
    }
  }

  lemma CancelLogged(c: State, id: string, log: seq<Event>, c1: State, sid: nat)
    requires Separate(c) && Logged(c, sid) && id in c.users && CancelLog(c, {id}, log)
    requires c1.users == c.users[id := WithoutSessions(c.users[id])] && c1.events == c.events + log
             && c1.lastSession == c.lastSession
    ensures Logged(c1, sid)
  {
    hide Logged, Separate;
    assert Live(c1, sid) <==> exists k :: k in c.users && k !in {id} && sid in c.users[k].sessions by {
      assert forall k :: k in c.users && k != id ==> c1.users[k] == c.users[k];
    }
    CancelledLogged(c, {id}, log, c1, sid);
  }

  /** Exactly the sessions of users that stay, with the same credentials, survive a replacement; who
      stays keeps the traffic counters; and every line of the list is in force. */
  lemma ReplacementEffect(c: State, es: seq<Entry>, c1: State, id: string)
    requires Inv(c) && Replaced(c, es, c1) && id in c.users
    ensures id in c1.users ==>
              && c1.users[id].upload == c.users[id].upload && c1.users[id].download == c.users[id].download
              && c1.users[id].total == c.users[id].total
              && c1.users[id].limits == LimitsOf(es, id) && c1.users[id].credentials == CredentialsOf(es, id)
              && c1.users[id].sessions
                 == (if c.users[id].credentials == CredentialsOf(es, id) then c.users[id].sessions else map[])
    ensures forall sid :: sid in c.users[id].sessions ==> (Live(c1, sid) <==> !Drops(c, es, id))
  {
    forall sid | sid in c.users[id].sessions ensures Live(c1, sid) <==> !Drops(c, es, id) {
      OnlyOwner(c, id, sid);
      SurvivorsAfter(c, es, c1, sid);
    }
  }

  lemma {:induction false} ListedFor(es: seq<Entry>, id: string, cr: string)
    ensures cr in CredentialsOf(es, id) <==> exists i :: 0 <= i < |es| && es[i].id == id && es[i].credential == cr
  {
    if es != [] {
      var init := es[..|es| - 1];
      ListedFor(init, id, cr);
      if i :| 0 <= i < |init| && init[i].id == id && init[i].credential == cr { assert es[i] == init[i]; }
    }
  }

  /** After a replacement every line of the list is in force: its credential is the user's, and the user's
      limits are its. */
  lemma EveryLineInForce(c: State, es: seq<Entry>, c1: State, i: nat)
    requires Replaced(c, es, c1) && i < |es|
    ensures es[i].credential in c1.credentials && c1.credentials[es[i].credential] == es[i].id
    ensures es[i].id in c1.users && c1.users[es[i].id].limits == es[i].limits
    ensures es[i].credential in c1.users[es[i].id].credentials
  {
    hide CredentialsOf, LimitsOf, CredentialMap, Ids, CancelLog, Valid;
    ListedFor(es, es[i].id, es[i].credential);
    CredentialsPartition(es, es[i].credential, es[i].id);
    FirstLimits(es, es[i].id);
    ValidMeans(es);
    SameLimits(es, i, es[i].id);
    assert c1.users[es[i].id] == UserAfter(c, es, es[i].id);
  }

  /** And nothing else is: users and credentials are those of some line, and new users start with nothing
      counted and no session. */
  lemma OnlyLinesInForce(c: State, es: seq<Entry>, c1: State, id: string, cr: string)
    requires Replaced(c, es, c1)
    ensures id in c1.users ==> exists i :: 0 <= i < |es| && es[i].id == id
    ensures id in c1.users && cr in c1.users[id].credentials
            ==> exists i :: 0 <= i < |es| && es[i].id == id && es[i].credential == cr
    ensures cr in c1.credentials
            ==> exists i :: 0 <= i < |es| && es[i].id == c1.credentials[cr] && es[i].credential == cr
    ensures id in c1.users && id !in c.users
            ==> var u := c1.users[id];
                u.upload == 0 && u.download == 0 && u.total == 0 && u.sessions == map[]
  {
    hide CredentialsOf, LimitsOf, CredentialMap, Ids, CancelLog, Valid;
    FirstLimits(es, id);
    ListedFor(es, id, cr);
    if id in c1.users { assert c1.users[id] == UserAfter(c, es, id); }
    if cr in c1.credentials {
      CredentialsPartition(es, cr, c1.credentials[cr]);
      ListedFor(es, c1.credentials[cr], cr);
    }
  }

  lemma SurvivorsAfter(c: State, es: seq<Entry>, c1: State, sid: nat)
    requires Replaced(c, es, c1)
    ensures Live(c1, sid) <==> exists id :: id in c.users && !Drops(c, es, id) && sid in c.users[id].sessions
  {
  }

  lemma ReplaceIndexed(c: State, es: seq<Entry>, c1: State)
    requires Replaced(c, es, c1)
    ensures Indexed(c1)
  {
    forall cr | cr in c1.credentials ensures c1.credentials[cr] in c1.users {
      CredentialsPartition(es, cr, c1.credentials[cr]);
    }
    forall id, cr | id in c1.users
      ensures cr in c1.users[id].credentials <==> cr in c1.credentials && c1.credentials[cr] == id
    {
      assert c1.users[id] == UserAfter(c, es, id);
      CredentialsPartition(es, cr, id);
    }
  }

  lemma ReplaceCounted(c: State, es: seq<Entry>, c1: State)
    requires UsersCounted(c) && Replaced(c, es, c1)
    ensures UsersCounted(c1)
  {
    hide CredentialsOf, LimitsOf, Valid, CredentialMap, Ids, CancelLog;
    assert Ips(map[]) == {};
    forall id | id in c1.users ensures Counted(c1.users[id]) {
      assert c1.users[id] == UserAfter(c, es, id);
    }
  }

  lemma ReplaceSeparate(c: State, es: seq<Entry>, c1: State)
    requires Separate(c) && Replaced(c, es, c1)
    ensures Separate(c1)
  {
  }

  lemma ReplaceInv(c: State, es: seq<Entry>, c1: State)
    requires Inv(c) && Replaced(c, es, c1)
    ensures Inv(c1)
  {
    ReplaceIndexed(c, es, c1);
    ReplaceCounted(c, es, c1);
    ReplaceSeparate(c, es, c1);
    var log :| CancelLog(c, Gone(c, es), log) && c1.events == c.events + log + [UsersReplaced(IdOrder(es))];
    forall sid ensures Logged(c1, sid) {
      assert Logged(c, sid);
      CountOne(c.events + log, UsersReplaced(IdOrder(es)), sid);
      SurvivorsAfter(c, es, c1, sid);
      ReplaceLogged(c, es, log, c1, sid);
    }
  }

  lemma ReplaceLogged(c: State, es: seq<Entry>, log: seq<Event>, c1: State, sid: nat)
    requires Separate(c) && Logged(c, sid) && CancelLog(c, Gone(c, es), log) && c1.lastSession == c.lastSession
    requires Opens(c1.events, sid) == Opens(c.events + log, sid) && Ends(c1.events, sid) == Ends(c.events + log, sid)
    requires Live(c1, sid) <==> exists id :: id in c.users && !Drops(c, es, id) && sid in c.users[id].sessions
    ensures Logged(c1, sid)
  {
    hide Logged, Separate, CancelLog, Drops;
    CancelledLogged(c, Gone(c, es), log, c1, sid);
  }

  lemma SetLimitsInv(c: State, id: string, limits: Limits)
    requires Inv(c) && id in c.users
    ensures Inv(c.(users := c.users[id := c.users[id].(limits := limits)]))
  {
    hide Logged, Separate, UsersCounted, Indexed, Ips;
    var u := c.users[id].(limits := limits);
    var c1 := c.(users := c.users[id := u]);
    assert Counted(c.users[id]) by { UserCounted(c, id); }
    OneUserChanged(c, id, u, c1);
    FewerSessionsSeparate(c, id, u, c1);
    forall sid ensures Logged(c1, sid) { LimitsLogged(c, id, u, c1, sid); }
  }

  lemma UserCounted(c: State, id: string)
    requires UsersCounted(c) && id in c.users
    ensures Counted(c.users[id])
  {
  }

  lemma LimitsLogged(c: State, id: string, u: User, c1: State, sid: nat)
    requires Logged(c, sid) && id in c.users && u.sessions == c.users[id].sessions
             && c1 == c.(users := c.users[id := u])
    ensures Logged(c1, sid)
  {
    assert forall k :: k in c.users ==> c1.users[k].sessions == c.users[k].sessions;
    assert Live(c1, sid) <==> Live(c, sid);
  }

  lemma StepInv(c: State, s: Step, c1: State)
    requires Inv(c) && Next(c, s, c1)
    ensures Inv(c1)
  {
    hide Inv, CancelDone, Replaced;
    match s
    case Open(id, ip) => OpenInv(c, id, ip);
    case Close(id, sid) => CloseInv(c, id, sid);
    case Cancel(id) => CancelInv(c, id, c1);
    case SetLimits(id, limits) => if id in c.users { SetLimitsInv(c, id, limits); }
    case Replace(es) => if Valid(es) { ReplaceInv(c, es, c1); }
  }

  // ---- runs

  ghost predicate IsRun(steps: seq<Step>, states: seq<State>) {
    && |states| == |steps| + 1
    && states[0] == EMPTY
    && forall i {:trigger steps[i]} :: 0 <= i < |steps| ==> Next(states[i], steps[i], states[i + 1])
  }

  lemma StartInv()
    ensures Inv(EMPTY)
  {
  }

  lemma {:induction false} RunInv(steps: seq<Step>, states: seq<State>, i: nat)
    requires IsRun(steps, states) && i < |states|
    ensures Inv(states[i])
  {
    hide Inv, Next;
    if i == 0 {
      StartInv();
    } else {
      RunInv(steps, states, i - 1);
      StepInv(states[i - 1], steps[i - 1], states[i]);
    }
  }

  /** In every state of every run of opens, closes, cancellations, limit changes and replacements: the
      published counters are right, each credential has exactly one owner and it exists, and
      each session number was opened at most once, ended at most once, and is live in between. */
  lemma Bookkeeping(steps: seq<Step>, states: seq<State>, i: nat, id: string, sid: nat, cr: string)
    requires IsRun(steps, states) && i < |states|
    ensures id in states[i].users ==> states[i].users[id].online == |states[i].users[id].sessions|
                                      && states[i].users[id].onlineIps == |Ips(states[i].users[id].sessions)|
    ensures cr in states[i].credentials ==> states[i].credentials[cr] in states[i].users
    ensures id in states[i].users
            ==> (cr in states[i].users[id].credentials
            <==> cr in states[i].credentials && states[i].credentials[cr] == id)
    ensures Ends(states[i].events, sid) <= Opens(states[i].events, sid) <= 1
    ensures Live(states[i], sid) <==> Opens(states[i].events, sid) == 1 && Ends(states[i].events, sid) == 0
  {
    RunInv(steps, states, i);
    assert Logged(states[i], sid);
  }

  lemma {:induction false} FreshNumbers(steps: seq<Step>, states: seq<State>, i: nat)
    requires IsRun(steps, states) && i < |states|
    ensures !Live(states[i], states[i].lastSession + 1)
  {
    RunInv(steps, states, i);
    assert Logged(states[i], states[i].lastSession + 1);
  }

  /** A step that leaves a user's limits alone leaves it within them. */
  lemma StepKeepsWithin(c: State, s: Step, c1: State, id: string)
    requires Next(c, s, c1) && id in c.users && id in c1.users && c1.users[id].limits == c.users[id].limits
    requires Within(c.users[id]) && !Live(c, c.lastSession + 1)
    ensures Within(c1.users[id])
  {
    hide Within, Ips, RoomForSession, RoomForIp;
    var u := c.users[id];
    CancelKeepsWithin(u);
    match s
    case Open(user, ip) => OpenStepWithin(c, user, ip, id);
    case Close(user, sid) => CloseKeepsWithin(u, sid);
    case Cancel(user) =>
    case SetLimits(user, limits) => assert c1.users[id] == u;
    case Replace(es) => if Valid(es) { ReplaceKeepsWithin(c, es, c1, id); }
  }

  lemma OpenStepWithin(c: State, user: string, ip: Option<string>, id: string)
    requires id in c.users && Within(c.users[id]) && !Live(c, c.lastSession + 1)
    ensures Within(OpenResult(c, user, ip).users[id])
  {
    hide Within, Ips, RoomForSession, RoomForIp;
    var u := c.users[id];
    assert c.lastSession + 1 !in u.sessions;
    if user == id && RoomForSession(u) && RoomForIp(u, ip) { OpenKeepsWithin(u, c.lastSession + 1, ip); }
  }

  lemma ReplaceKeepsWithin(c: State, es: seq<Entry>, c1: State, id: string)
    requires Replaced(c, es, c1) && id in c.users && id in c1.users && c1.users[id].limits == c.users[id].limits
    requires Within(c.users[id])
    ensures Within(c1.users[id])
  {
  }

  /** As long as a user's limits stay the same it stays within them. */
  lemma {:induction false} LimitsHold(steps: seq<Step>, states: seq<State>, i: nat, j: nat, id: string, limits: Limits)
    requires IsRun(steps, states) && i <= j < |states|
    requires forall k {:trigger states[k]} ::
             i <= k <= j
             ==> id in states[k].users && states[k].users[id].limits == limits
    requires Within(states[i].users[id])
    ensures Within(states[j].users[id])
    decreases j
  {
    hide Next, Within;
    if i < j {
      LimitsHold(steps, states, i, j - 1, id, limits);
      FreshNumbers(steps, states, j - 1);
      assert Next(states[j - 1], steps[j - 1], states[j]);
      StepKeepsWithin(states[j - 1], steps[j - 1], states[j], id);
    }
  }

  /** A user that has just been added is within its limits. */
  lemma NewUserWithin(credentials: set<string>, limits: Limits)
    ensures Within(NewUser(credentials, limits)) && Counted(NewUser(credentials, limits))
  {
  }

  // ---- helpers of the replacement

  /** What the validation loop collects. */
  datatype Index = Index(
    order: seq<string>, owners: map<string, string>,
    credentialsOf: map<string, set<string>>, limitsOf: map<string, Limits>)

  ghost predicate Collects(es: seq<Entry>, x: Index) {
    && x.order == IdOrder(es) && x.owners == CredentialMap(es)
    && x.credentialsOf.Keys == x.limitsOf.Keys == Ids(es)
    && (forall id ::
        id in x.credentialsOf
        ==> x.credentialsOf[id] == CredentialsOf(es, id) && x.limitsOf[id] == LimitsOf(es, id))
  }

  lemma {:induction false} ValidPrefix(es: seq<Entry>, k: nat)
    requires Valid(es) && k <= |es|
    ensures Valid(es[..k])
    decreases |es| - k
  {
    if k == |es| {
      assert es[..k] == es;
    } else {
      ValidPrefix(es, k + 1);
      assert es[..k + 1][..k] == es[..k];
    }
  }

  lemma {:induction false} NoneListed(es: seq<Entry>, id: string)
    requires id !in Ids(es)
    ensures CredentialsOf(es, id) == {}
  {
    if es != [] {
      NoneListed(es[..|es| - 1], id);
    }
  }

  function AddEntry(x: Index, e: Entry): Index
    requires x.credentialsOf.Keys == x.limitsOf.Keys
  {
    Index(
      if e.id in x.limitsOf then x.order else x.order + [e.id],
      x.owners[e.credential := e.id],
      x.credentialsOf[e.id := (if e.id in x.credentialsOf then x.credentialsOf[e.id] else {}) + {e.credential}],
      if e.id in x.limitsOf then x.limitsOf else x.limitsOf[e.id := e.limits])
  }

  lemma AddCollects(es: seq<Entry>, e: Entry, x: Index)
    requires Collects(es, x)
    ensures Collects(es + [e], AddEntry(x, e))
  {
    hide CredentialsOf, LimitsOf;
    var x1 := AddEntry(x, e);
    assert (es + [e])[..|es|] == es;
    assert x1.credentialsOf.Keys == x.credentialsOf.Keys + {e.id};
    assert x1.limitsOf.Keys == x.limitsOf.Keys + {e.id};
    forall id | id in x1.credentialsOf
      ensures x1.credentialsOf[id] == CredentialsOf(es + [e], id) && x1.limitsOf[id] == LimitsOf(es + [e], id)
    {
      CollectsUser(es, e, x, id);
    }
  }

  lemma CollectsUser(es: seq<Entry>, e: Entry, x: Index, id: string)
    requires Collects(es, x) && id in AddEntry(x, e).credentialsOf
    ensures id in Ids(es + [e])
    ensures AddEntry(x, e).credentialsOf[id] == CredentialsOf(es + [e], id)
    ensures AddEntry(x, e).limitsOf[id] == LimitsOf(es + [e], id)
  {
    assert (es + [e])[..|es|] == es;
    if id !in Ids(es) { NoneListed(es, id); }
  }

  method BuildIndex(es: seq<Entry>) returns (r: Option<Index>)
    ensures r.Some? <==> Valid(es)
    ensures r.Some? ==> Collects(es, r.value)
  {
    hide Collects;
    var x := Index([], map[], map[], map[]);
    assert Collects([], x) by { CollectsNothing(x); }
    assert es[..0] == [];
    for k := 0 to |es|
      invariant Collects(es[..k], x) && Valid(es[..k])
    {
      var e := es[k];
      assert es[..k + 1][..k] == es[..k];
      CollectsKeys(es[..k], x);
      if Valid(es) { ValidPrefix(es, k + 1); }
      if Blank(e.id) || Blank(e.credential) || e.credential in x.owners { return None; }
      if e.id in x.limitsOf && x.limitsOf[e.id] != e.limits {
        CollectsAt(es[..k], x, e.id);
        return None;
      }
      if e.id in x.limitsOf { CollectsAt(es[..k], x, e.id); }
      AddCollects(es[..k], e, x);
      assert es[..k + 1] == es[..k] + [e];
      x := AddEntry(x, e);
    }
    assert es[..|es|] == es;
    return Some(x);
  }

  lemma CollectsNothing(x: Index)
    requires x == Index([], map[], map[], map[])
    ensures Collects([], x)
  {
  }

  lemma CollectsKeys(es: seq<Entry>, x: Index)
    requires Collects(es, x)
    ensures x.credentialsOf.Keys == x.limitsOf.Keys == Ids(es) && x.owners.Keys == AllCredentials(es)
  {
  }

  lemma CollectsAt(es: seq<Entry>, x: Index, id: string)
    requires Collects(es, x) && id in x.limitsOf
    ensures id in Ids(es) && x.limitsOf[id] == LimitsOf(es, id)
  {
  }

  function Listed(users: map<string, User>, id: string, credentials: set<string>, limits: Limits): User {
    if id in users then UpdatedUser(users[id], credentials, limits) else NewUser(credentials, limits)
  }

  lemma ListedIs(users: map<string, User>, id: string, credentials: set<string>, limits: Limits)
    ensures id in users ==> Listed(users, id, credentials, limits) == UpdatedUser(users[id], credentials, limits)
    ensures id !in users ==> Listed(users, id, credentials, limits) == NewUser(credentials, limits)
  {
  }

  /** The users among `ids` whose credentials change. */
  function Changed(users: map<string, User>, ids: set<string>, credentialsOf: map<string, set<string>>): set<string>
    requires ids <= credentialsOf.Keys
  {
    set id | id in ids && id in users && users[id].credentials != credentialsOf[id]
  }

  lemma GoneIs(c: State, es: seq<Entry>, x: Index)
    requires Collects(es, x)
    ensures Gone(c, es) == Changed(c.users, x.credentialsOf.Keys, x.credentialsOf)
            + (c.users.Keys - x.credentialsOf.Keys)
  {
  }

  /** What one listed user's turn does. */
  ghost predicate UpdatedOne(
    c: State, c1: State, id: string, credentials: set<string>, limits: Limits, u: User, log: seq<Event>)
  {
    && u == Listed(c.users, id, credentials, limits)
    && c1.users.Keys == c.users.Keys && (forall k :: k in c.users && k != id ==> c1.users[k] == c.users[k])
    && CancelLog(c, if id in c.users && c.users[id].credentials != credentials then {id} else {}, log)
    && c1.events == c.events + log && c1.credentials == c.credentials && c1.lastSession == c.lastSession
  }

  /** Where the update stands when the users in `done` have had their turn. */
  ghost predicate Updating(
    c: State, c1: State, done: set<string>, credentialsOf: map<string, set<string>>, limitsOf: map<string, Limits>,
    next: map<string, User>, log: seq<Event>)
    requires done <= credentialsOf.Keys == limitsOf.Keys
  {
    && next.Keys == done
    && (forall id :: id in done ==> next[id] == Listed(c.users, id, credentialsOf[id], limitsOf[id]))
    && c1.users.Keys == c.users.Keys && (forall id :: id in c.users && id !in done ==> c1.users[id] == c.users[id])
    && CancelLog(c, Changed(c.users, done, credentialsOf), log)
    && c1.events == c.events + log && c1.credentials == c.credentials && c1.lastSession == c.lastSession
  }

  lemma NothingUpdated(c: State, credentialsOf: map<string, set<string>>, limitsOf: map<string, Limits>)
    requires credentialsOf.Keys == limitsOf.Keys
    ensures Updating(c, c, {}, credentialsOf, limitsOf, map[], [])
  {
  }

  lemma UpdatingStep(
    c: State, c1: State, c2: State, done: set<string>, credentialsOf: map<string, set<string>>,
    limitsOf: map<string, Limits>, next: map<string, User>, log: seq<Event>, id: string, u: User, more: seq<Event>)
    requires done + {id} <= credentialsOf.Keys == limitsOf.Keys && id !in done
    requires Updating(c, c1, done, credentialsOf, limitsOf, next, log)
    requires UpdatedOne(c1, c2, id, credentialsOf[id], limitsOf[id], u, more)
    ensures Updating(c, c2, done + {id}, credentialsOf, limitsOf, next[id := u], log + more)
  {
    hide CancelLog, Listed, Changed;
    OneMoreCancelled(c, c1, done, credentialsOf, id, log, more);
    SameListed(c.users, c1.users, id, credentialsOf[id], limitsOf[id]);
  }

  lemma SameListed(users: map<string, User>, users1: map<string, User>, id: string, credentials: set<string>,
      limits: Limits)
    requires users.Keys == users1.Keys && (id in users ==> users[id] == users1[id])
    ensures Listed(users, id, credentials, limits) == Listed(users1, id, credentials, limits)
  {
  }

  lemma NothingCancelled(c: State)
    ensures CancelLog(c, {}, [])
  {
  }

  /** A log of cancellations only depends on the users it is about. */
  lemma SameSessions(c: State, c1: State, gone: set<string>, log: seq<Event>)
    requires CancelLog(c1, gone, log) && c1.users.Keys == c.users.Keys
    requires forall id :: id in gone && id in c.users ==> c1.users[id] == c.users[id]
    ensures CancelLog(c, gone, log)
  {
  }

  lemma LogsJoin(c: State, gone: set<string>, log: seq<Event>, gone1: set<string>, log1: seq<Event>)
    requires CancelLog(c, gone, log) && CancelLog(c, gone1, log1) && gone !! gone1
    ensures CancelLog(c, gone + gone1, log + log1)
  {
  }

  /** Where the cancellation of removed users stands. */
  ghost predicate Cancelling(c: State, c1: State, done: set<string>, log: seq<Event>) {
    && c1.users.Keys == c.users.Keys && (forall id :: id in c.users && id !in done ==> c1.users[id] == c.users[id])
    && CancelLog(c, done, log)
    && c1.events == c.events + log && c1.credentials == c.credentials && c1.lastSession == c.lastSession
  }

  lemma NoneRemoved(c: State)
    ensures Cancelling(c, c, {}, [])
  {
  }

  lemma CancellingStep(
    c: State, c1: State, c2: State, done: set<string>, log: seq<Event>, id: string, more: seq<Event>)
    requires Cancelling(c, c1, done, log) && id !in done && id in c1.users && CancelLog(c1, {id}, more)
    requires c2 == c1.(users := c1.users[id := WithoutSessions(c1.users[id])], events := c1.events + more)
    ensures Cancelling(c, c2, done + {id}, log + more)
  {
    hide CancelLog;
    SameSessions(c, c1, {id}, more);
    LogsJoin(c, done, log, {id}, more);
    Associative(c.events, log, more);
  }

  lemma OneMoreCancelled(
    c: State, before: State, ids: set<string>, credentialsOf: map<string, set<string>>, id: string,
    log: seq<Event>, more: seq<Event>)
    requires id !in ids && ids + {id} <= credentialsOf.Keys && before.users.Keys == c.users.Keys
    requires id in c.users ==> before.users[id] == c.users[id]
    requires CancelLog(c, Changed(c.users, ids, credentialsOf), log)
    requires var changes := id in before.users && before.users[id].credentials != credentialsOf[id];
             CancelLog(before, if changes then {id} else {}, more)
    ensures CancelLog(c, Changed(c.users, ids + {id}, credentialsOf), log + more)
    ensures c.events + log + more == c.events + (log + more)
  {
    hide CancelLog;
    var one: set<string> := if id in c.users && c.users[id].credentials != credentialsOf[id] then {id} else {};
    SameSessions(c, before, one, more);
    LogsJoin(c, Changed(c.users, ids, credentialsOf), log, one, more);
    assert Changed(c.users, ids + {id}, credentialsOf) == Changed(c.users, ids, credentialsOf) + one;
  }

  // ---- the core, updated in place

  class Core {
    var users: map<string, User>
    var credentials: map<string, string>
    var lastSession: nat
    var events: seq<Event>

    constructor ()
      ensures View() == EMPTY
    {
      users, credentials, lastSession, events := map[], map[], 0, [];
    }

    ghost function View(): State
      reads this
    {
      State(users, credentials, lastSession, events)
    }

    method OpenSession(id: string, ip: Option<string>) returns (r: Option<nat>)
      modifies this
      ensures View() == OpenResult(old(View()), id, ip)
      ensures r == if id in old(users) && RoomForSession(old(users[id])) && RoomForIp(old(users[id]), ip)
                   then Some(old(lastSession) + 1) else None
    {
      if id !in users { return None; }
      var u := users[id];
      lastSession := lastSession + 1;
      if u.limits.maxSessions.Some? && u.limits.maxSessions.value > 0 && |u.sessions| >= u.limits.maxSessions.value {
        return None;
      }
      if u.limits.maxIps.Some? && u.limits.maxIps.value > 0 && ip.Some? {
        var ips := Ips(u.sessions);
        if ip.value !in ips {
          ips := ips + {ip.value};
          if |ips| > u.limits.maxIps.value { return None; }
        }
      }
      users := users[id := WithSession(u, lastSession, ip)];
      events := events + [Opened(id, lastSession)];
      return Some(lastSession);
    }

    method CloseSession(id: string, sid: nat)
      modifies this
      ensures View() == CloseResult(old(View()), id, sid)
    {
      if id in users {
        var u := users[id];
        users := users[id := WithoutSession(u, sid)];
        if sid in u.sessions { events := events + [Closed(id, sid)]; }
      }
    }

    /** Clears the table of one user, then reports each session. */
    method CancelSessions(id: string) returns (ghost log: seq<Event>)
      requires id in users
      modifies this
      ensures CancelLog(old(View()), {id}, log) && events == old(events) + log
      ensures users == old(users)[id := WithoutSessions(old(users[id]))]
      ensures credentials == old(credentials) && lastSession == old(lastSession)
    {
      var u := users[id];
      users := users[id := WithoutSessions(u)];
      var left := u.sessions.Keys;
      log := [];
      assert old(events) + [] == old(events);
      while left != {}
        invariant left <= u.sessions.Keys && events == old(events) + log
        invariant forall i ::
                  0 <= i < |log|
                  ==> log[i].Cancelled? && log[i].user == id && log[i].session in u.sessions && log[i].session !in left
        invariant forall sid :: sid in u.sessions && sid !in left ==> Cancelled(id, sid) in log
        invariant forall i, j :: 0 <= i < j < |log| ==> log[i] != log[j]
        invariant users == old(users)[id := WithoutSessions(u)]
        invariant credentials == old(credentials) && lastSession == old(lastSession)
        decreases |left|
      {
        var sid :| sid in left;
        left := left - {sid};
        events := events + [Cancelled(id, sid)];
        log := log + [Cancelled(id, sid)];
      }
    }

    method ApplyUserUpdate(id: string, newCredentials: set<string>, limits: Limits) returns (ghost log: seq<Event>)
      requires id in users
      modifies this
      ensures users == old(users)[id := UpdatedUser(old(users[id]), newCredentials, limits)]
      ensures CancelLog(old(View()), if old(users[id]).credentials != newCredentials then {id} else {}, log)
      ensures events == old(events) + log
      ensures credentials == old(credentials) && lastSession == old(lastSession)
    {
      hide CancelLog;
      log := [];
      if users[id].credentials != newCredentials {
        log := CancelSessions(id);
        users := users[id := users[id].(credentials := newCredentials)];
      } else {
        NothingCancelled(View());
        assert events + [] == events;
      }
      users := users[id := users[id].(limits := limits)];
      assert users == old(users)[id := UpdatedUser(old(users[id]), newCredentials, limits)];
    }

    method UpdateOne(id: string, newCredentials: set<string>, limits: Limits) returns (u: User, ghost log: seq<Event>)
      modifies this
      ensures UpdatedOne(old(View()), View(), id, newCredentials, limits, u, log)
    {
      hide CancelLog;
      if id in users {
        log := ApplyUserUpdate(id, newCredentials, limits);
        u := users[id];
      } else {
        u, log := NewUser(newCredentials, limits), [];
        NothingCancelled(View());
        assert events + [] == events;
      }
    }

    /** Updates the listed users that exist and makes the others. */
    method UpdateListed(ids: set<string>, credentialsOf: map<string, set<string>>, limitsOf: map<string, Limits>)
      returns (next: map<string, User>, ghost log: seq<Event>)
      requires ids == credentialsOf.Keys == limitsOf.Keys
      modifies this
      ensures Updating(old(View()), View(), ids, credentialsOf, limitsOf, next, log)
    {
      hide Updating, UpdatedOne;
      next, log := map[], [];
      var left := ids;
      ghost var done: set<string> := {};
      NothingUpdated(View(), credentialsOf, limitsOf);
      while left != {}
        invariant done !! left && done + left == ids
        invariant Updating(old(View()), View(), done, credentialsOf, limitsOf, next, log)
        decreases |left|
      {
        var id :| id in left;
        ghost var before := View();
        var u, more := UpdateOne(id, credentialsOf[id], limitsOf[id]);
        UpdatingStep(old(View()), before, View(), done, credentialsOf, limitsOf, next, log, id, u, more);
        log := log + more;
        next := next[id := u];
        left, done := left - {id}, done + {id};
      }
      assert done == ids;
    }

    /** Cancels the sessions of every user that is not listed. */
    method CancelRemoved(ids: set<string>) returns (ghost log: seq<Event>)
      modifies this
      ensures Cancelling(old(View()), View(), old(users).Keys - ids, log)
    {
      hide Cancelling, CancelLog;
      log := [];
      var left := users.Keys - ids;
      ghost var done: set<string> := {};
      NoneRemoved(View());
      while left != {}
        invariant done !! left && done + left == old(users).Keys - ids && users.Keys == old(users).Keys
        invariant Cancelling(old(View()), View(), done, log)
        decreases |left|
      {
        var id :| id in left;
        ghost var before := View();
        ghost var more := CancelSessions(id);
        CancellingStep(old(View()), before, View(), done, log, id, more);
        log := log + more;
        left, done := left - {id}, done + {id};
      }
      assert done == old(users).Keys - ids;
    }

    /** Replaces the whole user list, or changes nothing. */
    method ReplaceUsers(es: seq<Entry>) returns (ok: bool)
      modifies this
      ensures ok == Valid(es)
      ensures Next(old(View()), Replace(es), View())
    {
      hide CancelLog, Listed, Valid;
      var index := BuildIndex(es);
      if index.None? { return false; }
      var Index(order, owners, credentialsOf, limitsOf) := index.value;
      var ids := credentialsOf.Keys;
      ghost var c := View();
      var next, updates := UpdateListed(ids, credentialsOf, limitsOf);
      ghost var between := View();
      ghost var removals := CancelRemoved(ids);
      users, credentials := next, owners;
      events := events + [UsersReplaced(order)];
      SameSessions(c, between, c.users.Keys - ids, removals);
      LogsJoin(c, Changed(c.users, ids, credentialsOf), updates, c.users.Keys - ids, removals);
      GoneIs(c, es, index.value);
      Associative(c.events, updates, removals);
      assert CancelLog(c, Gone(c, es), updates + removals);
      assert events == c.events + (updates + removals) + [UsersReplaced(IdOrder(es))];
      forall id | id in users ensures users[id] == UserAfter(c, es, id) {
        ListedIs(c.users, id, credentialsOf[id], limitsOf[id]);
      }
      return true;
    }
  }
}
