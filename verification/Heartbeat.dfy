/** Which clients the server takes to be alive: logins, acknowledgements and the heartbeat over whole runs. */
module Heartbeat {

  type Fd = int

  /** What is left of a client_ds: its credit and its IP address. */
  datatype Client = Client(isonline: int, ip: int)

  type Clients = map<Fd, Client>

  const LOGIN_CREDIT: int := 8
  const ACK_CREDIT: int := 5

  // ---- the steps ----

  /** check_online */
  predicate IsOnline(clients: Clients, ip: int) {
    exists fd :: fd in clients && clients[fd].ip == ip
  }

  /** How one round of do_login went: a token arrived in time, the reply could be sent, the token matched. */
  datatype Attempt = Attempt(fd: Fd, ip: int, tokenCame: bool, replySent: bool, tokenMatches: bool)

  predicate Admitted(clients: Clients, a: Attempt) {
    a.tokenCame && !IsOnline(clients, a.ip) && a.replySent && a.tokenMatches
  }

  /** heart_beat as one sweep over the map */
  function Swept(clients: Clients): Clients {
    map fd | fd in clients && clients[fd].isonline != 1 ::
      if clients[fd].isonline > 0 then clients[fd].(isonline := clients[fd].isonline - 1) else clients[fd]
  }

  datatype Event = Login(attempt: Attempt) | Ack(fd: Fd) | Tick

  /** An ACK can only come in on the descriptor of a listed client. */
  predicate Enabled(clients: Clients, e: Event) {
    e.Ack? ==> e.fd in clients
  }

  function Step(clients: Clients, e: Event): Clients
    requires Enabled(clients, e)
  {
    match e
    case Login(a) => if Admitted(clients, a) then clients[a.fd := Client(LOGIN_CREDIT, a.ip)] else clients
    case Ack(fd) => clients[fd := clients[fd].(isonline := ACK_CREDIT)]
    case Tick => Swept(clients)
  }

  // ---- runs from an empty list ----

  predicate Possible(events: seq<Event>)
    decreases |events|, 0
  {
    events != [] ==>
      var before := events[..|events| - 1];
      Possible(before) && Enabled(After(before), events[|events| - 1])
  }

  function After(events: seq<Event>): Clients
    requires Possible(events)
    decreases |events|, 1
  {
    if events == [] then map[] else Step(After(events[..|events| - 1]), events[|events| - 1])
  }

  /** The credit that event `i` of the run gave to `fd`, if it gave any. */
  function Granted(events: seq<Event>, i: nat, fd: Fd): int
    requires Possible(events) && i < |events|
  {
    PossiblePrefix(events, i);
    match events[i]
    case Login(a) => if a.fd == fd && Admitted(After(events[..i]), a) then LOGIN_CREDIT else 0
    case Ack(f) => if f == fd then ACK_CREDIT else 0
    case Tick => 0
  }

  lemma {:induction false} PossiblePrefix(events: seq<Event>, i: nat)
    requires Possible(events) && i <= |events|
    ensures Possible(events[..i])
    decreases |events|
  {
    if i < |events| {
      PossiblePrefix(events[..|events| - 1], i);
      assert events[..|events| - 1][..i] == events[..i];
    } else {
      assert events[..i] == events;
    }
  }

  function Ticks(events: seq<Event>): nat {
    if events == [] then 0 else (if events[|events| - 1].Tick? then 1 else 0) + Ticks(events[..|events| - 1])
  }

  /** Event `i` was the last one that gave `fd` credit. */
  predicate LastGrant(events: seq<Event>, i: nat, fd: Fd)
    requires Possible(events)
  {
    i < |events| && Granted(events, i, fd) > 0 && forall k :: i < k < |events| ==> Granted(events, k, fd) == 0
  }

  lemma {:induction false} GrantedInPrefix(events: seq<Event>, n: nat, i: nat, fd: Fd)
    requires Possible(events) && i < n <= |events|
    ensures Possible(events[..n]) && Granted(events[..n], i, fd) == Granted(events, i, fd)
  {
    PossiblePrefix(events, n);
    assert events[..n][..i] == events[..i];
  }

  // ---- what a run says about a client ----

  /** No listed client has this address. */
  predicate Unlisted(clients: Clients, ip: int) {
    forall fd :: fd in clients ==> clients[fd].ip != ip
  }

  /** The client showed the right token, could be answered, and came from an address nobody else is listed with. */
  predicate GoodLogin(clients: Clients, a: Attempt) {
    a.tokenCame && a.replySent && a.tokenMatches && Unlisted(clients, a.ip)
  }

  /** What the next event does, after any run. */
  lemma {:induction false} NextEvent(events: seq<Event>, e: Event)
    requires Possible(events) && Enabled(After(events), e)
    ensures Possible(events + [e])
    ensures var m0, m1 := After(events), After(events + [e]);
            match e
            case Login(a) => m1 == if GoodLogin(m0, a) then m0[a.fd := Client(8, a.ip)] else m0
            case Ack(fd) => fd in m0 && m1 == m0[fd := Client(5, m0[fd].ip)]
            case Tick =>
              forall fd :: (fd in m1 <==> fd in m0 && m0[fd].isonline >= 2)
                           && (fd in m1 ==> m1[fd] == Client(m0[fd].isonline - 1, m0[fd].ip))
  {
    assert (events + [e])[..|events|] == events;
    AlwaysSound(events);
    if e.Login? { OnlineOrUnlisted(After(events), e.attempt.ip); }
  }

  lemma {:induction false} OnlineOrUnlisted(clients: Clients, ip: int)
    ensures IsOnline(clients, ip) <==> !Unlisted(clients, ip)
  {
  }

  /**
   * Whoever is listed got there by a good login, made when nobody was listed with that address, and has been listed
   * ever since.
   */
  lemma {:induction false} ListedMeansAdmitted(events: seq<Event>, fd: Fd) returns (i: nat)
    requires Possible(events) && fd in After(events)
    ensures i < |events| && events[i].Login? && Possible(events[..i])
    ensures events[i].attempt.fd == fd && events[i].attempt.ip == After(events)[fd].ip
    ensures GoodLogin(After(events[..i]), events[i].attempt)
    ensures forall k :: i < k <= |events| ==> Possible(events[..k]) && fd in After(events[..k])
    decreases |events|
  {
    var n := |events| - 1;
    var before, e := events[..n], events[n];
    assert events == before + [e] && events[..|events|] == events;
    NextEvent(before, e);
    if e.Login? && e.attempt.fd == fd && GoodLogin(After(before), e.attempt) {
      i := n;
    } else {
      i := ListedMeansAdmitted(before, fd);
      assert forall k :: 0 <= k <= n ==> events[..k] == before[..k];
    }
  }

  /** Which events give credit, and how much. */
  lemma {:induction false} GrantedIs(events: seq<Event>, i: nat, fd: Fd)
    requires Possible(events) && i < |events|
    ensures Possible(events[..i])
    ensures Granted(events, i, fd) ==
            match events[i]
            case Login(a) => if a.fd == fd && GoodLogin(After(events[..i]), a) then 8 else 0
            case Ack(f) => if f == fd then 5 else 0
            case Tick => 0
  {
    PossiblePrefix(events, i);
    if events[i].Login? { OnlineOrUnlisted(After(events[..i]), events[i].attempt.ip); }
  }

  /**
   * The credit of a client after any run: 8 minus the ticks since it logged in, or 5 minus the ticks since its
   * last ACK. The client is listed exactly as long as that is at least 1.
   */
  lemma {:induction false} CreditCountsDown(events: seq<Event>, i: nat, fd: Fd)
    requires Possible(events) && LastGrant(events, i, fd)
    ensures !events[i].Tick?
    ensures var credit := (if events[i].Login? then 8 else 5) - Ticks(events[i + 1..]);
            && (fd in After(events) <==> credit >= 1)
            && (fd in After(events) ==> After(events)[fd].isonline == credit)
    decreases |events|
  {
    hide After, Possible, Granted, LastGrant, Swept, Ticks;
    LastGrantParts(events, i, fd);
    var n := |events| - 1;
    var before, e := events[..n], events[n];
    PossiblePrefix(events, n);
    assert events == before + [e];
    NextEvent(before, e);
    GrantedIs(events, n, fd);
    if i == n {
      NoTicks(events[i + 1..]);
    } else {
      LastGrantBefore(events, i, fd);
      CreditCountsDown(before, i, fd);
      OneMoreTick(events, i);
    }
  }

  lemma {:induction false} LastGrantParts(events: seq<Event>, i: nat, fd: Fd)
    requires Possible(events) && LastGrant(events, i, fd)
    ensures i < |events| && Granted(events, i, fd) > 0 && (i < |events| - 1 ==> Granted(events, |events| - 1, fd) == 0)
    ensures Possible(events[..|events| - 1]) && Enabled(After(events[..|events| - 1]), events[|events| - 1])
  {
  }

  lemma {:induction false} LastGrantBefore(events: seq<Event>, i: nat, fd: Fd)
    requires Possible(events) && LastGrant(events, i, fd) && i < |events| - 1
    ensures Possible(events[..|events| - 1]) && LastGrant(events[..|events| - 1], i, fd)
  {
    hide After, Possible, Granted;
    var n := |events| - 1;
    PossiblePrefix(events, n);
    forall k | i <= k < n ensures Granted(events[..n], k, fd) == Granted(events, k, fd) {
      GrantedInPrefix(events, n, k, fd);
    }
  }

  lemma {:induction false} NoTicks(events: seq<Event>)
    requires events == []
    ensures Ticks(events) == 0
  {
  }

  lemma {:induction false} OneMoreTick(events: seq<Event>, i: nat)
    requires i < |events| - 1
    ensures var n := |events| - 1;
            Ticks(events[i + 1..]) == Ticks(events[..n][i + 1..]) + (if events[n].Tick? then 1 else 0)
  {
    var n := |events| - 1;
    assert events[i + 1..] == events[..n][i + 1..] + [events[n]];
    assert events[i + 1..][..n - i - 1] == events[..n][i + 1..];
  }

  /** A descriptor that never got credit is not listed. */
  lemma {:induction false} NeverGranted(events: seq<Event>, fd: Fd)
    requires Possible(events) && forall k :: 0 <= k < |events| ==> Granted(events, k, fd) == 0
    ensures fd !in After(events)
    decreases |events|
  {
    if events != [] {
      var n := |events| - 1;
      forall k | 0 <= k < n ensures Granted(events[..n], k, fd) == 0 {
        GrantedInPrefix(events, n, k, fd);
      }
      NeverGranted(events[..n], fd);
      assert Granted(events, n, fd) == 0;
    }
  }

  /** Over every run, every listed client has credit from 1 to 8 and no two of them share an IP address. */
  predicate Sound(clients: Clients) {
    && (forall fd :: fd in clients ==> 1 <= clients[fd].isonline <= 8)
    && (forall f, g :: f in clients && g in clients && f != g ==> clients[f].ip != clients[g].ip)
  }

  lemma {:induction false} AlwaysSound(events: seq<Event>)
    requires Possible(events)
    ensures Sound(After(events))
    decreases |events|
  {
    if events != [] {
      AlwaysSound(events[..|events| - 1]);
    }
  }

  /** A client that falls silent is dropped by exactly the tick that uses up its credit, and not before. */
  lemma {:induction false} SilentClientIsDropped(events: seq<Event>, i: nat, fd: Fd)
    requires Possible(events + [Tick]) && Possible(events) && LastGrant(events, i, fd)
    requires fd in After(events)
    ensures fd !in After(events + [Tick]) <==> Ticks(events[i + 1..]) == (if events[i].Login? then 7 else 4)
  {
    CreditCountsDown(events, i, fd);
    assert (events + [Tick])[..|events|] == events;
  }

  /**
   * A client whose connection broke cannot come back at once: its address is refused as long as its old entry
   * has credit, which is until 8 ticks after its login or 5 after its last ACK.
   */
  lemma {:induction false} BrokenClientIsLockedOut(events: seq<Event>, i: nat, fd: Fd, a: Attempt)
    requires Possible(events) && LastGrant(events, i, fd)
    requires Ticks(events[i + 1..]) < (if events[i].Login? then 8 else 5)
    ensures fd in After(events)
    ensures a.ip == After(events)[fd].ip ==>
              Possible(events + [Login(a)]) && After(events + [Login(a)]) == After(events)
  {
    CreditCountsDown(events, i, fd);
    NextEvent(events, Login(a));
  }

  // ---- the server's map ----

  lemma {:induction false} SomeDescriptor(fds: set<Fd>)
    requires fds != {}
    ensures exists fd :: fd in fds
  {
    assert (forall fd :: fd !in fds) ==> fds == {};
  }

  class Server {
    var clients: Clients

    constructor ()
      ensures clients == map[]
    {
      clients := map[];
    }

    /** check_online */
    method CheckOnline(ip: int) returns (flag: int)
      ensures flag == 1 || flag == 0
      ensures flag == 0 <==> Unlisted(clients, ip)
    {
      flag := 0;
      var rest: set<Fd> := clients.Keys;
      while rest != {}
        invariant rest <= clients.Keys && (flag == 0 || flag == 1)
        invariant flag == 1 ==> !Unlisted(clients, ip)
        invariant flag == 0 ==> forall fd :: fd in clients && fd !in rest ==> clients[fd].ip != ip
        decreases |rest|
      {
        SomeDescriptor(rest);
        var fd: Fd :| fd in rest;
        if clients[fd].ip == ip {
          flag := 1;
        }
        rest := rest - {fd};
      }
    }

    /** One round of do_login; `ack` is the reply that was sent, if one was. */
    method DoLogin(a: Attempt) returns (ack: int, admitted: bool)
      modifies this
      ensures clients == Step(old(clients), Login(a)) && (admitted <==> GoodLogin(old(clients), a))
      ensures clients == if admitted then old(clients)[a.fd := Client(8, a.ip)] else old(clients)
      ensures ack == 1 <==> a.tokenCame && a.replySent && Unlisted(old(clients), a.ip)
      ensures ack == 0 <==> a.tokenCame && a.replySent && !Unlisted(old(clients), a.ip)
    {
      OnlineOrUnlisted(clients, a.ip);
      ack, admitted := -1, false;
      if !a.tokenCame {
        return;
      }
      var reply := 1;
      var online := CheckOnline(a.ip);
      if online == 1 {
        reply := 0;
      }
      if !a.replySent {
        return;
      }
      ack := reply;
      if ack == 0 {
        return;
      }
      if !a.tokenMatches {
        return;
      }
      clients := clients[a.fd := Client(LOGIN_CREDIT, a.ip)];
      admitted := true;
    }

    /** The ACK branch of do_dispatch */
    method Acknowledge(fd: Fd)
      requires fd in clients
      modifies this
      ensures clients == Step(old(clients), Ack(fd)) == old(clients)[fd := Client(5, old(clients)[fd].ip)]
    {
      clients := clients[fd := clients[fd].(isonline := ACK_CREDIT)];
    }

    /** heart_beat */
    method HeartBeat()
      modifies this
      ensures clients == Step(old(clients), Tick)
      ensures forall fd :: fd in clients <==> fd in old(clients) && old(clients)[fd].isonline != 1
      ensures forall fd :: fd in clients && old(clients)[fd].isonline > 0 ==>
                clients[fd] == Client(old(clients)[fd].isonline - 1, old(clients)[fd].ip)
    {
      ghost var all := clients;
      var rest: set<Fd> := clients.Keys;
      while rest != {}
        invariant rest <= all.Keys
        invariant forall fd :: fd in clients <==> fd in all && (fd in rest || all[fd].isonline != 1)
        invariant forall fd :: fd in clients ==> clients[fd] == if fd in rest then all[fd] else Swept(all)[fd]
        decreases |rest|
      {
        SomeDescriptor(rest);
        var fd: Fd :| fd in rest;
        rest := rest - {fd};
        if clients[fd].isonline > 0 {
          clients := clients[fd := clients[fd].(isonline := clients[fd].isonline - 1)];
          if clients[fd].isonline <= 0 {
            clients := clients - {fd};
          }
        }
      }
      assert rest == {};
      assert forall fd :: fd in clients <==> fd in Swept(all);
      assert forall fd :: fd in clients ==> clients[fd] == Swept(all)[fd];
      assert clients == Swept(all);
    }
  }
}
