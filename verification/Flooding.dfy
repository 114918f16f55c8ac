/** One chat message flooding an overlay of connected nodes (`p2p-chat.py`). A node hands the message on over every
    link but the one it came by, unless it is the addressee; it remembers nothing. */
module Flooding {

  type Nickname = string
  type Link = (Nickname, Nickname)

  /** Which nodes each node has a connection to. */
  type Overlay = map<Nickname, set<Nickname>>

  ghost predicate WellFormed(g: Overlay) {
    forall u, v | u in g && v in g[u] :: v in g && u in g[v] && u != v
  }

  ghost predicate IsWalk(g: Overlay, path: seq<Nickname>) {
    && |path| > 0
    && (forall i | 0 <= i < |path| :: path[i] in g)
    && forall i | 0 <= i < |path| - 1 :: path[i + 1] in g[path[i]]
  }

  ghost predicate WalkBetween(g: Overlay, path: seq<Nickname>, u: Nickname, v: Nickname) {
    IsWalk(g, path) && path[0] == u && path[|path| - 1] == v
  }

  ghost predicate Crosses(path: seq<Nickname>, u: Nickname, v: Nickname) {
    exists i | 0 <= i < |path| - 1 :: (path[i] == u && path[i + 1] == v) || (path[i] == v && path[i + 1] == u)
  }

  /** No cycles: the two ends of a link are joined only by walks that use that link. */
  ghost predicate Acyclic(g: Overlay) {
    forall u, v, path | u in g && v in g[u] && WalkBetween(g, path, u, v) :: Crosses(path, u, v)
  }

  /** Messages on their way and messages that arrived, counted per direction of a link, and arrivals per node. */
  datatype Flood = Flood(inFlight: multiset<Link>, delivered: multiset<Link>, handled: multiset<Nickname>) {
    ghost function Sent(): multiset<Link> {
      inFlight + delivered
    }
  }

  /** The links a node writes to: `except` holds the nodes left out. */
  ghost function Writes(g: Overlay, u: Nickname, except: set<Nickname>): set<Link>
    requires u in g
  {
    set w | w in g[u] - except :: (u, w)
  }

  ghost function Start(g: Overlay, sender: Nickname): Flood
    requires sender in g
  {
    Flood(multiset(Writes(g, sender, {})), multiset{}, multiset{})
  }

  /** `_on_message` at the far end of a link; nothing happens if nothing is in flight there. */
  ghost function Arrive(g: Overlay, addressee: Nickname, f: Flood, link: Link): Flood {
    var (u, v) := link;
    if link !in f.inFlight || v !in g then f
    else
      var out := if v == addressee then multiset{} else multiset(Writes(g, v, {u}));
      Flood(f.inFlight - multiset{link} + out, f.delivered + multiset{link}, f.handled + multiset{v})
  }

  ghost function Run(g: Overlay, addressee: Nickname, f: Flood, order: seq<Link>): Flood
    decreases |order|
  {
    if order == [] then f else Run(g, addressee, Arrive(g, addressee, f, order[0]), order[1..])
  }

  // --- Walks ---

  lemma WalkSuffix(g: Overlay, path: seq<Nickname>, i: nat)
    requires IsWalk(g, path) && i < |path|
    ensures WalkBetween(g, path[i..], path[i], path[|path| - 1])
  {
  }

  lemma WalkExtend(g: Overlay, path: seq<Nickname>, w: Nickname)
    requires IsWalk(g, path) && WellFormed(g) && w in g[path[|path| - 1]]
    ensures WalkBetween(g, path + [w], path[0], w)
  {
  }

  ghost function Reversed(path: seq<Nickname>): (r: seq<Nickname>)
    ensures |r| == |path|
    ensures forall i | 0 <= i < |path| :: r[i] == path[|path| - 1 - i]
  {
    seq(|path|, i requires 0 <= i < |path| => path[|path| - 1 - i])
  }

  lemma WalkReversed(g: Overlay, path: seq<Nickname>)
    requires IsWalk(g, path) && WellFormed(g)
    ensures WalkBetween(g, Reversed(path), path[|path| - 1], path[0])
  {
    var r := Reversed(path);
    forall i | 0 <= i < |r| - 1 ensures r[i + 1] in g[r[i]] {
      var k := |path| - 2 - i;
      assert path[k + 1] in g[path[k]];
    }
  }

  lemma WalkJoin(g: Overlay, a: seq<Nickname>, b: seq<Nickname>)
    requires IsWalk(g, a) && IsWalk(g, b) && a[|a| - 1] == b[0]
    ensures WalkBetween(g, a + b[1..], a[0], b[|b| - 1])
  {
    var c := a + b[1..];
    forall i | 0 <= i < |c| - 1 ensures c[i + 1] in g[c[i]] {
      if i >= |a| - 1 {
        assert c[i + 1] == b[i - |a| + 2];
        assert c[i] == b[i - |a| + 1];
      }
    }
  }

  lemma LastStepCrosses(path: seq<Nickname>, u: Nickname, v: Nickname)
    requires |path| > 0 && v !in path
    ensures Crosses(path + [v], u, v) ==> path[|path| - 1] == u
  {
    var longer := path + [v];
    forall i | 0 <= i < |path| ensures longer[i] != v {
      assert path[i] in path;
    }
  }

  lemma JoinCrossesNot(a: seq<Nickname>, b: seq<Nickname>, u: Nickname, v: Nickname)
    requires |a| > 0 && |b| > 0 && a[|a| - 1] == b[0] && v !in a && u !in b
    ensures !Crosses(a + b[1..], u, v)
  {
    var c := a + b[1..];
    forall i | 0 <= i < |c| - 1 ensures (c[i] != v && c[i + 1] != v) || (c[i] != u && c[i + 1] != u) {
      if i + 1 < |a| {
        assert a[i] in a && a[i + 1] in a;
      } else {
        assert c[i] == b[i - |a| + 1] && c[i + 1] == b[i - |a| + 2];
        assert b[i - |a| + 1] in b && b[i - |a| + 2] in b;
      }
    }
  }

  /** A walk from the sender to `u` that stays away from `v`, and from the addressee after its first node. */
  ghost predicate Approach(g: Overlay, sender: Nickname, addressee: Nickname, u: Nickname, v: Nickname,
                           path: seq<Nickname>)
  {
    && WalkBetween(g, path, sender, u) && v !in path
    && forall i | 1 <= i < |path| :: path[i] != addressee
  }

  /** A message on the link from `u` to `v` has come from the sender without passing `v`. */
  ghost predicate Reached(g: Overlay, sender: Nickname, addressee: Nickname, u: Nickname, v: Nickname) {
    u in g && v in g[u] && exists path :: Approach(g, sender, addressee, u, v, path)
  }

  /** Handing on keeps this. */
  lemma ReachedOnward(g: Overlay, sender: Nickname, addressee: Nickname, u: Nickname, v: Nickname, w: Nickname)
    requires WellFormed(g) && Acyclic(g) && Reached(g, sender, addressee, u, v)
    requires v != addressee && w in g[v] && w != u
    ensures Reached(g, sender, addressee, v, w)
  {
    var path :| Approach(g, sender, addressee, u, v, path);
    WalkExtend(g, path, v);
    if w in path {
      var i :| 0 <= i < |path| && path[i] == w;
      WalkSuffix(g, path, i);
      WalkExtend(g, path[i..], v);
      LastStepCrosses(path[i..], w, v);
    }
    assert Approach(g, sender, addressee, v, w, path + [v]);
  }

  /** A message never goes back to its sender. */
  lemma NeverBack(g: Overlay, sender: Nickname, addressee: Nickname, u: Nickname, v: Nickname)
    requires Reached(g, sender, addressee, u, v)
    ensures v != sender
  {
    var path :| Approach(g, sender, addressee, u, v, path);
    assert path[0] in path;
  }

  /** It comes to a node over one link only. */
  lemma OneWayIn(g: Overlay, sender: Nickname, addressee: Nickname, u: Nickname, u': Nickname, v: Nickname)
    requires WellFormed(g) && Acyclic(g)
    requires Reached(g, sender, addressee, u, v) && Reached(g, sender, addressee, u', v)
    ensures u == u'
  {
    if u != u' {
      var a :| Approach(g, sender, addressee, u, v, a);
      var b :| Approach(g, sender, addressee, u', v, b);
      WalkReversed(g, a);
      WalkJoin(g, Reversed(a), b);
      var across := Reversed(a) + b[1..];
      assert v !in Reversed(a) && v !in b[1..];
      assert across[|across| - 1] == u';
      WalkExtend(g, across, v);
      LastStepCrosses(across, u, v);
    }
  }

  /** It uses a link in one direction only. */
  lemma OneDirection(g: Overlay, sender: Nickname, addressee: Nickname, u: Nickname, v: Nickname)
    requires WellFormed(g) && Acyclic(g)
    requires Reached(g, sender, addressee, u, v)
    ensures !Reached(g, sender, addressee, v, u)
  {
    if Reached(g, sender, addressee, v, u) {
      var a :| Approach(g, sender, addressee, u, v, a);
      var b :| Approach(g, sender, addressee, v, u, b);
      WalkReversed(g, a);
      WalkJoin(g, Reversed(a), b);
      assert v !in Reversed(a);
      JoinCrossesNot(Reversed(a), b, u, v);
    }
  }

  /** Directed links along which a flood may run: away from the sender, one link into each node, and onward from every
      node but the addressee. */
  ghost predicate Routes(g: Overlay, sender: Nickname, addressee: Nickname, routes: set<Link>) {
    && sender in g
    && (forall u, v | (u, v) in routes :: u in g && v in g && v in g[u] && v != sender && (v, u) !in routes)
    && (forall u, u', v | (u, v) in routes && (u', v) in routes :: u == u')
    && (forall w | w in g[sender] :: (sender, w) in routes)
    && (forall u, v, w | (u, v) in routes && v != addressee && w in g[v] && w != u :: (v, w) in routes)
  }

  ghost function ReachedLinks(g: Overlay, sender: Nickname, addressee: Nickname): set<Link> {
    set u, v | u in g && v in g[u] && Reached(g, sender, addressee, u, v) :: (u, v)
  }

  /** In an overlay without cycles, the links reached from the sender are such routes. */
  lemma ReachedAreRoutes(g: Overlay, sender: Nickname, addressee: Nickname)
    requires WellFormed(g) && Acyclic(g) && sender in g
    ensures Routes(g, sender, addressee, ReachedLinks(g, sender, addressee))
  {
    var routes := ReachedLinks(g, sender, addressee);
    forall u, v | (u, v) in routes ensures v != sender && (v, u) !in routes {
      NeverBack(g, sender, addressee, u, v);
      OneDirection(g, sender, addressee, u, v);
    }
    forall u, u', v | (u, v) in routes && (u', v) in routes ensures u == u' {
      OneWayIn(g, sender, addressee, u, u', v);
    }
    forall w | w in g[sender] ensures (sender, w) in routes {
      assert Approach(g, sender, addressee, sender, w, [sender]);
    }
    forall u, v, w | (u, v) in routes && v != addressee && w in g[v] && w != u ensures (v, w) in routes {
      ReachedOnward(g, sender, addressee, u, v, w);
    }
  }

  // --- The invariant of a flood ---

  /** Messages run along routes, at most one on each; only the sender and nodes that handled the message send it. */
  ghost predicate LinksOk(routes: set<Link>, sender: Nickname, f: Flood) {
    && (forall link | link in f.Sent() :: link in routes && f.Sent()[link] == 1)
    && (forall link | link in f.Sent() :: link.0 == sender || link.0 in f.handled)
  }

  /** A node has handled the message once if it was delivered to it over some link, and otherwise not at all. */
  ghost predicate HandledOk(f: Flood) {
    && (forall v | v in f.handled :: f.handled[v] == 1 && exists u :: (u, v) in f.delivered)
    && (forall link | link in f.delivered :: link.1 in f.handled)
  }

  /** The sender has written to all its links, and a node that handed on to all but the one it heard from. */
  ghost predicate HandedOn(g: Overlay, sender: Nickname, addressee: Nickname, f: Flood)
    requires sender in g
  {
    && (forall w | w in g[sender] :: (sender, w) in f.Sent())
    && (forall x, u, w | (x, u) in f.delivered && u != addressee && u in g && w in g[u] && w != x :: (u, w) in f.Sent())
  }

  ghost predicate Inv(g: Overlay, routes: set<Link>, sender: Nickname, addressee: Nickname, f: Flood)
    requires sender in g
  {
    LinksOk(routes, sender, f) && HandledOk(f) && HandedOn(g, sender, addressee, f)
  }

  lemma StartInv(g: Overlay, routes: set<Link>, sender: Nickname, addressee: Nickname)
    requires Routes(g, sender, addressee, routes)
    ensures Inv(g, routes, sender, addressee, Start(g, sender))
  {
    assert Start(g, sender).Sent() == multiset(Writes(g, sender, {}));
  }

  /** A message in flight is the first to arrive at its end, and the node there has sent nothing yet. */
  lemma FirstArrival(g: Overlay, routes: set<Link>, sender: Nickname, addressee: Nickname, f: Flood, link: Link)
    requires Routes(g, sender, addressee, routes) && Inv(g, routes, sender, addressee, f)
    requires link in f.inFlight
    ensures link in routes && f.inFlight[link] == 1 && link !in f.delivered
    ensures link.1 != sender && link.1 !in f.handled && link.1 in g
    ensures forall w :: (link.1, w) !in f.Sent()
  {
    var (u, v) := link;
    assert link in f.Sent() && f.Sent()[link] == 1;
    assert forall x | (x, v) in f.delivered :: (x, v) in f.Sent() && x == u;
    assert forall w | (v, w) in f.Sent() :: (v, w).0 in f.handled;
  }

  lemma ArriveSends(g: Overlay, addressee: Nickname, f: Flood, link: Link)
    requires link in f.inFlight && link.1 in g
    ensures var (u, v) := link;
            var out := if v == addressee then multiset{} else multiset(Writes(g, v, {u}));
            Arrive(g, addressee, f, link).Sent() == f.Sent() + out
  {
  }

  lemma ArriveKeepsLinks(g: Overlay, routes: set<Link>, sender: Nickname, addressee: Nickname, f: Flood, link: Link)
    requires Routes(g, sender, addressee, routes) && Inv(g, routes, sender, addressee, f)
    requires link in f.inFlight
    ensures LinksOk(routes, sender, Arrive(g, addressee, f, link))
  {
    FirstArrival(g, routes, sender, addressee, f, link);
    ArriveSends(g, addressee, f, link);
    var f' := Arrive(g, addressee, f, link);
    forall l | l in f'.Sent() ensures l in routes && f'.Sent()[l] == 1 && (l.0 == sender || l.0 in f'.handled) {
      if l !in f.Sent() {
        assert l in Writes(g, link.1, {link.0});
      } else {
        assert l !in Writes(g, link.1, {link.0});
      }
    }
  }

  lemma ArriveKeepsHandled(g: Overlay, routes: set<Link>, sender: Nickname, addressee: Nickname, f: Flood, link: Link)
    requires Routes(g, sender, addressee, routes) && Inv(g, routes, sender, addressee, f)
    requires link in f.inFlight
    ensures HandledOk(Arrive(g, addressee, f, link))
  {
    FirstArrival(g, routes, sender, addressee, f, link);
    var f' := Arrive(g, addressee, f, link);
    forall w | w in f'.handled ensures f'.handled[w] == 1 && exists x :: (x, w) in f'.delivered {
      if w == link.1 {
        assert (link.0, w) in f'.delivered;
      } else {
        assert w in f.handled;
        var x :| (x, w) in f.delivered;
        assert (x, w) in f'.delivered;
      }
    }
  }

  lemma ArriveKeepsHandedOn(g: Overlay, sender: Nickname, addressee: Nickname, f: Flood, link: Link)
    requires sender in g && HandedOn(g, sender, addressee, f)
    requires link in f.inFlight && link.1 in g
    ensures HandedOn(g, sender, addressee, Arrive(g, addressee, f, link))
  {
    ArriveSends(g, addressee, f, link);
    var f' := Arrive(g, addressee, f, link);
    var sent, sent' := f.Sent(), f'.Sent();
    assert forall l | l in sent :: l in sent';
    forall x, y, w | (x, y) in f'.delivered && y != addressee && y in g && w in g[y] && w != x
      ensures (y, w) in sent'
    {
      if (x, y) in f.delivered {
        assert (y, w) in sent;
      } else {
        assert (x, y) == link;
        assert (y, w) in Writes(g, y, {x});
      }
    }
  }

  lemma {:induction false} RunKeepsInv(g: Overlay, routes: set<Link>, sender: Nickname, addressee: Nickname,
                                       f: Flood, order: seq<Link>)
    requires Routes(g, sender, addressee, routes) && Inv(g, routes, sender, addressee, f)
    ensures Inv(g, routes, sender, addressee, Run(g, addressee, f, order))
    decreases |order|
  {
    if order != [] {
      if order[0] in f.inFlight {
        ArriveKeepsLinks(g, routes, sender, addressee, f, order[0]);
        ArriveKeepsHandled(g, routes, sender, addressee, f, order[0]);
        FirstArrival(g, routes, sender, addressee, f, order[0]);
        ArriveKeepsHandedOn(g, sender, addressee, f, order[0]);
      }
      RunKeepsInv(g, routes, sender, addressee, Arrive(g, addressee, f, order[0]), order[1..]);
    }
  }

  /** The invariant holds in every overlay without cycles, after every order of arrivals. */
  lemma FloodInv(g: Overlay, sender: Nickname, addressee: Nickname, order: seq<Link>) returns (routes: set<Link>)
    requires WellFormed(g) && Acyclic(g) && sender in g
    ensures routes == ReachedLinks(g, sender, addressee) && Routes(g, sender, addressee, routes)
    ensures Inv(g, routes, sender, addressee, Run(g, addressee, Start(g, sender), order))
  {
    routes := ReachedLinks(g, sender, addressee);
    ReachedAreRoutes(g, sender, addressee);
    StartInv(g, routes, sender, addressee);
    RunKeepsInv(g, routes, sender, addressee, Start(g, sender), order);
  }

  // --- Results ---

  lemma InvAtMostOnce(g: Overlay, routes: set<Link>, sender: Nickname, addressee: Nickname, f: Flood)
    requires Routes(g, sender, addressee, routes) && Inv(g, routes, sender, addressee, f)
    ensures forall u, v :: f.Sent()[(u, v)] + f.Sent()[(v, u)] <= 1
    ensures forall v :: f.handled[v] <= 1
    ensures forall v | v in f.handled :: v in g.Keys - {sender}
  {
    forall u, v ensures f.Sent()[(u, v)] + f.Sent()[(v, u)] <= 1 {
      assert (u, v) in f.Sent() ==> (u, v) in routes && f.Sent()[(u, v)] == 1;
      assert (v, u) in f.Sent() ==> (v, u) in routes && f.Sent()[(v, u)] == 1;
    }
    forall v | v in f.handled ensures v in g.Keys - {sender} {
      var u :| (u, v) in f.delivered;
      assert (u, v) in f.Sent();
    }
  }

  /** In whatever order messages arrive: a link carries the message at most once, counting both directions, no node
      handles it twice, and it does not return to its sender. */
  lemma AtMostOnce(g: Overlay, sender: Nickname, addressee: Nickname, order: seq<Link>)
    requires WellFormed(g) && Acyclic(g) && sender in g
    ensures var f := Run(g, addressee, Start(g, sender), order);
            && (forall u, v :: f.Sent()[(u, v)] + f.Sent()[(v, u)] <= 1)
            && (forall v :: f.handled[v] <= 1)
            && sender !in f.handled
  {
    var routes := FloodInv(g, sender, addressee, order);
    InvAtMostOnce(g, routes, sender, addressee, Run(g, addressee, Start(g, sender), order));
  }

  /** The nodes a message is meant to pass: those the sender reaches without passing through the addressee. */
  ghost predicate Audience(g: Overlay, sender: Nickname, addressee: Nickname, v: Nickname) {
    v != sender
    && exists path :: WalkBetween(g, path, sender, v) && forall i | 1 <= i < |path| - 1 :: path[i] != addressee
  }

  /** The end of a reached link is in the audience. */
  lemma ReachedIsAudience(g: Overlay, sender: Nickname, addressee: Nickname, u: Nickname, v: Nickname)
    requires WellFormed(g) && Reached(g, sender, addressee, u, v)
    ensures Audience(g, sender, addressee, v)
  {
    var path :| Approach(g, sender, addressee, u, v, path);
    WalkExtend(g, path, v);
    NeverBack(g, sender, addressee, u, v);
    assert WalkBetween(g, path + [v], sender, v);
  }

  /** When nothing is in flight any more, every node on a walk that the message may take has handled it. */
  lemma {:induction false} WalkHandled(g: Overlay, routes: set<Link>, sender: Nickname, addressee: Nickname, f: Flood,
                                       path: seq<Nickname>, k: nat)
    requires sender in g && Inv(g, routes, sender, addressee, f) && f.inFlight == multiset{}
    requires IsWalk(g, path) && path[0] == sender && k < |path|
    requires forall i | 1 <= i < |path| - 1 :: path[i] != addressee
    ensures path[k] == sender || path[k] in f.handled
  {
    assert f.Sent() == f.delivered;
    if k > 0 {
      WalkHandled(g, routes, sender, addressee, f, path, k - 1);
      var u, w := path[k - 1], path[k];
      assert w in g[u];
      if u == sender {
        assert (u, w) in f.delivered;
      } else {
        var x :| (x, u) in f.delivered;
        assert (x, u) in f.Sent();
        assert w != x ==> (u, w) in f.delivered;
      }
    }
  }

  /** Once nothing is in flight, the nodes that have handled the message, each exactly once, are those the sender
      reaches without passing through the addressee; a node behind the addressee never sees it. */
  lemma FloodReachesAudience(g: Overlay, sender: Nickname, addressee: Nickname, order: seq<Link>, v: Nickname)
    requires WellFormed(g) && Acyclic(g) && sender in g
    requires Run(g, addressee, Start(g, sender), order).inFlight == multiset{}
    ensures var f := Run(g, addressee, Start(g, sender), order);
            f.handled[v] == if Audience(g, sender, addressee, v) then 1 else 0
  {
    var routes := FloodInv(g, sender, addressee, order);
    var f := Run(g, addressee, Start(g, sender), order);
    if v in f.handled {
      var u :| (u, v) in f.delivered;
      assert (u, v) in f.Sent();
      ReachedIsAudience(g, sender, addressee, u, v);
    }
    if Audience(g, sender, addressee, v) {
      var path :| WalkBetween(g, path, sender, v) && forall i | 1 <= i < |path| - 1 :: path[i] != addressee;
      WalkHandled(g, routes, sender, addressee, f, path, |path| - 1);
    }
  }

  /** An addressee connected to the sender is in the audience, whatever lies between them. */
  lemma {:induction false} ConnectedIsAudience(g: Overlay, sender: Nickname, addressee: Nickname, path: seq<Nickname>)
    requires WalkBetween(g, path, sender, addressee) && sender != addressee
    ensures Audience(g, sender, addressee, addressee)
    decreases |path|
  {
    if i :| 1 <= i < |path| - 1 && path[i] == addressee {
      assert WalkBetween(g, path[..i + 1], sender, addressee);
      ConnectedIsAudience(g, sender, addressee, path[..i + 1]);
    }
  }

  lemma AddresseeGetsItOnce(g: Overlay, sender: Nickname, addressee: Nickname, order: seq<Link>, path: seq<Nickname>)
    requires WellFormed(g) && Acyclic(g) && sender != addressee
    requires WalkBetween(g, path, sender, addressee)
    requires Run(g, addressee, Start(g, sender), order).inFlight == multiset{}
    ensures Run(g, addressee, Start(g, sender), order).handled[addressee] == 1
  {
    ConnectedIsAudience(g, sender, addressee, path);
    FloodReachesAudience(g, sender, addressee, order, addressee);
  }

  // --- Termination ---

  lemma {:induction false} DistinctBound(m: multiset<Nickname>, names: set<Nickname>)
    requires forall v | v in m :: v in names && m[v] == 1
    ensures |m| <= |names|
    decreases |m|
  {
    if m != multiset{} {
      var v :| v in m;
      DistinctBound(m - multiset{v}, names - {v});
    }
  }

  /** Number of arrivals in `order` that find a message. */
  ghost function Arrivals(g: Overlay, addressee: Nickname, f: Flood, order: seq<Link>): nat
    decreases |order|
  {
    if order == [] then 0
    else
      (if order[0] in f.inFlight && order[0].1 in g then 1 else 0)
      + Arrivals(g, addressee, Arrive(g, addressee, f, order[0]), order[1..])
  }

  lemma {:induction false} ArrivalsAreHandled(g: Overlay, addressee: Nickname, f: Flood, order: seq<Link>)
    ensures |Run(g, addressee, f, order).handled| == |f.handled| + Arrivals(g, addressee, f, order)
    decreases |order|
  {
    if order != [] {
      ArrivalsAreHandled(g, addressee, Arrive(g, addressee, f, order[0]), order[1..]);
    }
  }

  /** A flood ends: no order of arrivals has as many of them as there are nodes. */
  lemma FloodEnds(g: Overlay, sender: Nickname, addressee: Nickname, order: seq<Link>)
    requires WellFormed(g) && Acyclic(g) && sender in g
    ensures Arrivals(g, addressee, Start(g, sender), order) < |g|
  {
    var routes := FloodInv(g, sender, addressee, order);
    var f := Run(g, addressee, Start(g, sender), order);
    InvAtMostOnce(g, routes, sender, addressee, f);
    ArrivalsAreHandled(g, addressee, Start(g, sender), order);
    assert forall v | v in f.handled :: f.handled[v] <= 1;
    DistinctBound(f.handled, g.Keys - {sender});
  }

  // --- Why the overlay must have no cycle ---

  ghost predicate NonBacktracking(path: seq<Nickname>) {
    forall i | 0 <= i < |path| - 2 :: path[i] != path[i + 2]
  }

  function LinksOf(path: seq<Nickname>): seq<Link> {
    if |path| < 2 then [] else [(path[0], path[1])] + LinksOf(path[1..])
  }

  lemma PassedOn(g: Overlay, addressee: Nickname, f: Flood, u: Nickname, v: Nickname, w: Nickname)
    requires (u, v) in f.inFlight && v in g && v != addressee && w in g[v] && w != u
    ensures (v, w) in Arrive(g, addressee, f, (u, v)).inFlight
  {
    assert (v, w) in Writes(g, v, {u});
  }

  ghost predicate Straight(g: Overlay, addressee: Nickname, path: seq<Nickname>) {
    && IsWalk(g, path) && NonBacktracking(path)
    && forall i | 1 <= i < |path| - 1 :: path[i] != addressee
  }

  lemma StraightTail(g: Overlay, addressee: Nickname, path: seq<Nickname>)
    requires |path| > 2 && Straight(g, addressee, path)
    ensures Straight(g, addressee, path[1..])
    ensures path[1] in g && path[1] != addressee && path[2] in g[path[1]] && path[2] != path[0]
  {
    var rest := path[1..];
    assert forall i | 0 <= i < |rest| :: rest[i] == path[i + 1];
    forall i | 0 <= i < |rest| - 2 ensures rest[i] != rest[i + 2] {
      assert path[i + 1] != path[i + 1 + 2];
    }
  }

  /** A message follows every walk that does not turn back, as often as that walk passes a node. */
  lemma {:induction false} WalkIsFollowed(g: Overlay, addressee: Nickname, f: Flood, path: seq<Nickname>)
    requires |path| >= 2 && Straight(g, addressee, path) && (path[0], path[1]) in f.inFlight
    ensures Run(g, addressee, f, LinksOf(path)).handled == f.handled + multiset(path[1..])
    decreases |path|
  {
    var rest := path[1..];
    var order := LinksOf(path);
    assert order[0] == (path[0], path[1]) && order[1..] == LinksOf(rest);
    assert rest == [path[1]] + rest[1..];
    if |path| > 2 {
      StraightTail(g, addressee, path);
      PassedOn(g, addressee, f, path[0], path[1], path[2]);
      WalkIsFollowed(g, addressee, Arrive(g, addressee, f, (path[0], path[1])), rest);
    }
  }

  /** A walk that avoids a link can be shortened to one that does not turn back. */
  lemma {:induction false} Straighten(g: Overlay, path: seq<Nickname>, u: Nickname, v: Nickname)
      returns (straight: seq<Nickname>)
    requires WellFormed(g) && WalkBetween(g, path, u, v) && !Crosses(path, u, v)
    ensures WalkBetween(g, straight, u, v) && !Crosses(straight, u, v) && NonBacktracking(straight)
    decreases |path|
  {
    if i :| 0 <= i < |path| - 2 && path[i] == path[i + 2] {
      var shorter := path[..i] + path[i + 2..];
      assert forall k | 0 <= k < |shorter| :: shorter[k] == if k < i then path[k] else path[k + 2];
      straight := Straighten(g, shorter, u, v);
    } else {
      straight := path;
    }
  }

  lemma SliceIsWalk(g: Overlay, path: seq<Nickname>, lo: nat, hi: nat)
    requires IsWalk(g, path) && NonBacktracking(path) && lo < hi <= |path|
    ensures IsWalk(g, path[lo..hi]) && NonBacktracking(path[lo..hi])
  {
    var part := path[lo..hi];
    assert forall i | 0 <= i < |part| :: part[i] == path[lo + i];
    forall i | 0 <= i < |part| - 2 ensures part[i] != part[i + 2] {
      assert path[lo + i] != path[lo + i + 2];
    }
    forall i | 0 <= i < |part| - 1 ensures part[i + 1] in g[part[i]] {
      assert path[lo + i + 1] in g[path[lo + i]];
    }
  }

  /** Twice round the cycle that a link closes with a walk between its ends. */
  lemma TwiceRound(g: Overlay, straight: seq<Nickname>, u: Nickname, w: Nickname)
    requires WellFormed(g) && u in g && w in g[u]
    requires WalkBetween(g, straight, u, w) && !Crosses(straight, u, w) && NonBacktracking(straight)
    ensures |straight| > 2 && IsWalk(g, straight + straight) && NonBacktracking(straight + straight)
  {
    var n, twice := |straight|, straight + straight;
    assert straight[1] in g[straight[0]];
    assert straight[n - 2] != u && straight[1] != w;
    forall i | 0 <= i < |twice| - 1 ensures twice[i + 1] in g[twice[i]] {
      assert i < n - 1 ==> straight[i + 1] in g[straight[i]];
      assert i >= n ==> straight[i - n + 1] in g[straight[i - n]];
    }
    forall i | 0 <= i < |twice| - 2 ensures twice[i] != twice[i + 2] {
      assert i < n - 2 ==> straight[i] != straight[i + 2];
      assert i >= n ==> straight[i - n] != straight[i - n + 2];
    }
  }

  /** The part of a closed walk up to its first return. */
  lemma {:induction false} CutAtReturn(g: Overlay, addressee: Nickname, path: seq<Nickname>)
      returns (cut: seq<Nickname>)
    requires |path| > 1 && path[0] == path[|path| - 1] == addressee && IsWalk(g, path) && NonBacktracking(path)
    ensures |cut| > 1 && cut[0] == cut[|cut| - 1] == addressee && Straight(g, addressee, cut)
    decreases |path|
  {
    if i :| 1 <= i < |path| - 1 && path[i] == addressee {
      SliceIsWalk(g, path, 0, i + 1);
      cut := CutAtReturn(g, addressee, path[0..i + 1]);
    } else {
      cut := path;
    }
  }

  lemma CountsTwice(path: seq<Nickname>, i: nat, j: nat)
    requires i < j < |path| && path[i] == path[j]
    ensures multiset(path)[path[i]] >= 2
  {
    assert path == path[..j] + path[j..];
    assert path[i] in path[..j] && path[j] in path[j..];
  }

  /** A cycle away from the addressee: what any of its nodes sends comes round to the next node again. */
  lemma CycleElsewhere(g: Overlay, addressee: Nickname, cycle: seq<Nickname>) returns (order: seq<Link>)
    requires |cycle| > 2 && addressee !in cycle
    requires IsWalk(g, cycle + cycle) && NonBacktracking(cycle + cycle)
    ensures cycle[0] in g && Run(g, addressee, Start(g, cycle[0]), order).handled[cycle[1]] >= 2
  {
    var n, twice := |cycle|, cycle + cycle;
    order := LinksOf(twice);
    assert twice[0] == cycle[0] && twice[1] == cycle[1] && twice[1] in g[twice[0]];
    assert (cycle[0], cycle[1]) in Writes(g, cycle[0], {});
    assert Straight(g, addressee, twice) by {
      assert forall x | x in twice :: x in cycle;
    }
    WalkIsFollowed(g, addressee, Start(g, cycle[0]), twice);
    CountsTwice(twice[1..], 0, n);
  }

  /** A cycle through the addressee: what its neighbour sends comes to it directly and the other way round. */
  lemma CycleThrough(g: Overlay, addressee: Nickname, path: seq<Nickname>) returns (sender: Nickname, order: seq<Link>)
    requires WellFormed(g) && |path| > 1 && path[0] == path[|path| - 1] == addressee && Straight(g, addressee, path)
    ensures sender in g && sender != addressee
    ensures Run(g, addressee, Start(g, sender), order).handled[addressee] >= 2
  {
    var n := |path|;
    sender := path[1];
    assert path[1] in g[path[0]];
    assert n > 2 && path[2] != path[0] && path[2] in g[path[1]];
    assert n > 3;
    var round := path[1..n];
    SliceIsWalk(g, path, 1, n);
    assert forall i | 0 <= i < |round| :: round[i] == path[i + 1];
    assert Straight(g, addressee, round);
    order := [(sender, addressee)] + LinksOf(round);
    assert (sender, path[2]) in Writes(g, sender, {}) && (sender, addressee) in Writes(g, sender, {});
    var f := Arrive(g, addressee, Start(g, sender), (sender, addressee));
    assert f.handled == multiset{addressee} && (sender, path[2]) in f.inFlight;
    WalkIsFollowed(g, addressee, f, round);
    assert order[1..] == LinksOf(round);
    assert round[1..][n - 3] == addressee;
  }

  /** In an overlay with a cycle, some message to any given addressee is handled twice by some node, and one that
      is not sent by the addressee itself. */
  lemma CycleRepeats(g: Overlay, addressee: Nickname) returns (sender: Nickname, order: seq<Link>, v: Nickname)
    requires WellFormed(g) && !Acyclic(g)
    ensures sender in g && sender != addressee
    ensures Run(g, addressee, Start(g, sender), order).handled[v] >= 2
  {
    var u, w, path :| u in g && w in g[u] && WalkBetween(g, path, u, w) && !Crosses(path, u, w);
    var cycle := Straighten(g, path, u, w);
    TwiceRound(g, cycle, u, w);
    if k :| 0 <= k < |cycle| && cycle[k] == addressee {
      var n, twice := |cycle|, cycle + cycle;
      SliceIsWalk(g, twice, k, k + n + 1);
      assert twice[k] == addressee == twice[k + n];
      var cut := CutAtReturn(g, addressee, twice[k..k + n + 1]);
      v := addressee;
      sender, order := CycleThrough(g, addressee, cut);
    } else {
      sender, v := u, cycle[1];
      order := CycleElsewhere(g, addressee, cycle);
    }
  }

  /** Exactly the overlays without cycles handle every message to `addressee` at most once per node, whoever else sends
      it; and this for every addressee, whether it takes part or not. */
  lemma OnceIffAcyclic(g: Overlay, addressee: Nickname)
    requires WellFormed(g)
    ensures Acyclic(g) <==>
            forall sender, order, v | sender in g && sender != addressee ::
              Run(g, addressee, Start(g, sender), order).handled[v] <= 1
  {
    if Acyclic(g) {
      forall sender, order, v | sender in g ensures Run(g, addressee, Start(g, sender), order).handled[v] <= 1 {
        AtMostOnce(g, sender, addressee, order);
      }
    } else {
      var sender, order, v := CycleRepeats(g, addressee);
      assert Run(g, addressee, Start(g, sender), order).handled[v] > 1;
    }
  }
}
