/** The DNS cache of WASTE (`C_AsyncDNS` in `asyncdns.cpp`): calls of `resolve` between the steps of the worker thread,
    which asks the system's resolver in one step and stores the answer in a later one. */
module AsyncDns {
  import opened Text

  type Address = nat

  const INADDR_NONE: Address := 0xFFFF_FFFF
  const NAME_SIZE := 256

  /** `cache_entry`; a time of zero marks a slot that was never used. */
  datatype Slot = Slot(lastUsed: nat, resolved: bool, hostname: string, addr: Address) {

    predicate Pending() {
      lastUsed != 0 && !resolved && hostname != ""
    }
  }

  const FREE := Slot(0, false, "", 0)

  // --- Names ---

  /** The form of a name that `stricmp` compares. */
  function Folded(name: string): (f: string)
    ensures |f| == |name|
  {
    if name == "" then "" else [LowerChar(name[0])] + Folded(name[1..])
  }

  /** Names are compared letter by letter, in whatever case. */
  lemma {:induction false} FoldedSameIff(a: string, b: string)
    ensures Folded(a) == Folded(b) <==> SameName(a, b)
  {
    if a != "" && b != "" {
      FoldedSameIff(a[1..], b[1..]);
      assert Folded(a) == [LowerChar(a[0])] + Folded(a[1..]) && Folded(b) == [LowerChar(b[0])] + Folded(b[1..]);
      assert Folded(a)[1..] == Folded(a[1..]) && Folded(b)[1..] == Folded(b[1..]);
      assert Folded(a)[0] == Folded(b)[0] <==> SameLetter(a[0], b[0]);
      assert forall i | 0 < i < |a| && i < |b| :: a[i] == a[1..][i - 1] && b[i] == b[1..][i - 1];
      assert |a| == |b| ==> forall i | 0 <= i < |a| - 1 :: a[1..][i] == a[i + 1] && b[1..][i] == b[i + 1];
    }
  }

  /** `safe_strncpy` into the field of a slot. */
  function Truncated(name: string): string {
    if |name| < NAME_SIZE then name else name[..NAME_SIZE - 1]
  }

  // --- resolve ---

  /** No slot before `n` has this name. */
  predicate Absent(cache: seq<Slot>, name: string, n: nat)
    requires n <= |cache|
  {
    forall k | 0 <= k < n :: Folded(cache[k].hostname) != Folded(name)
  }

  /** The first slot with a name, or the number of slots. */
  function SlotOf(cache: seq<Slot>, name: string, from: nat): (x: nat)
    requires from <= |cache| && Absent(cache, name, from)
    ensures x <= |cache| && Absent(cache, name, x)
    ensures x < |cache| ==> Folded(cache[x].hostname) == Folded(name)
    decreases |cache| - from
  {
    if from == |cache| || Folded(cache[from].hostname) == Folded(name) then from else SlotOf(cache, name, from + 1)
  }

  /** Of the first `n` slots, none of them free, `oi` is the resolved one that was used least recently; -1 means that
      none is resolved. */
  predicate LeastRecent(cache: seq<Slot>, n: nat, oi: int)
    requires n <= |cache|
  {
    && -1 <= oi < n
    && (forall k | 0 <= k < n :: cache[k].lastUsed != 0)
    && (oi != -1 ==> cache[oi].resolved)
    && (forall k | 0 <= k < n && cache[k].resolved :: oi != -1 && cache[oi].lastUsed <= cache[k].lastUsed)
    && (forall k | 0 <= k < oi && cache[k].resolved :: cache[oi].lastUsed < cache[k].lastUsed)
  }

  /** The first free slot. */
  predicate FirstFree(cache: seq<Slot>, x: nat)
    requires x < |cache|
  {
    cache[x].lastUsed == 0 && forall k | 0 <= k < x :: cache[k].lastUsed != 0
  }

  /** The slot for a new name: the first free one if there is one, else the least recently used of the resolved ones. */
  function VictimFrom(cache: seq<Slot>, x: nat, oi: int): (v: int)
    requires x <= |cache| && LeastRecent(cache, x, oi)
    ensures LeastRecent(cache, |cache|, v) || (0 <= v < |cache| && FirstFree(cache, v))
    decreases |cache| - x
  {
    if x == |cache| then oi
    else if cache[x].lastUsed == 0 then x
    else VictimFrom(cache, x + 1,
           if (oi == -1 || cache[x].lastUsed < cache[oi].lastUsed) && cache[x].resolved then x else oi)
  }

  function Victim(cache: seq<Slot>): int {
    VictimFrom(cache, 0, -1)
  }

  /** `resolve` returns 0 with an address, -1 for a name that has none or no slot, and 1 for "wait". */
  datatype Reply = Found(addr: Address) | Unresolvable | Wait

  function ResolvedReply(slot: Slot): Reply {
    if !slot.resolved then Wait else if slot.addr == INADDR_NONE then Unresolvable else Found(slot.addr)
  }

  function Resolved(cache: seq<Slot>, name: string, now: nat): (r: (seq<Slot>, Reply))
    ensures |r.0| == |cache|
  {
    var x := SlotOf(cache, name, 0);
    if x < |cache| then (cache[x := cache[x].(lastUsed := now)], ResolvedReply(cache[x]))
    else
      var v := Victim(cache);
      if v == -1 then (cache, Unresolvable)
      else (cache[v := Slot(now, false, Truncated(name), INADDR_NONE)], Wait)
  }

  function AddressOf(answer: Option<Address>): Address {
    if answer.Some? then answer.value else INADDR_NONE
  }

  class AsyncDns {
    var cache: seq<Slot>
    var threadKill: bool

    constructor (maxCacheEntries: nat)
      ensures cache == seq(maxCacheEntries, _ => FREE) && threadKill
    {
      cache := seq(maxCacheEntries, _ => FREE);
      threadKill := true;
    }

    /** `resolve` at the time `now`; `created` tells whether a thread could be made if one is needed. */
    method Resolve(hostname: string, now: nat, created: bool) returns (reply: Reply)
      modifies this
      ensures (cache, reply) == Resolved(old(cache), hostname, now)
      ensures threadKill == (old(threadKill) && !(reply == Wait && created))
    {
      for x := 0 to |cache|
        invariant cache == old(cache) && threadKill == old(threadKill)
        invariant Absent(cache, hostname, x)
        invariant SlotOf(cache, hostname, x) == SlotOf(cache, hostname, 0)
      {
        if Folded(cache[x].hostname) == Folded(hostname) {
          cache := cache[x := cache[x].(lastUsed := now)];
          if cache[x].resolved {
            if cache[x].addr == INADDR_NONE {
              return Unresolvable;
            }
            return Found(cache[x].addr);
          }
          MakeSureThreadIsRunning(created);
          return Wait;
        }
      }
      var oi := FindVictim();
      if oi == -1 {
        return Unresolvable;
      }
      cache := cache[oi := Slot(now, false, Truncated(hostname), INADDR_NONE)];
      MakeSureThreadIsRunning(created);
      return Wait;
    }

    /** The second loop of `resolve`. */
    method FindVictim() returns (oi: int)
      ensures oi == Victim(cache)
    {
      oi := -1;
      for x := 0 to |cache|
        invariant LeastRecent(cache, x, oi) && VictimFrom(cache, x, oi) == Victim(cache)
      {
        if cache[x].lastUsed == 0 {
          return x;
        }
        if (oi == -1 || cache[x].lastUsed < cache[oi].lastUsed) && cache[x].resolved {
          oi := x;
        }
      }
    }

    /** `_threadfunc` when no `resolve` comes between: every pending slot gets its answer, the others stay. */
    method ThreadFunc(gethostbyname: string -> Option<Address>)
      modifies this
      ensures threadKill && |cache| == |old(cache)|
      ensures forall i | 0 <= i < |cache| :: cache[i] ==
                if old(cache[i].Pending())
                then old(cache[i]).(resolved := true, addr := AddressOf(gethostbyname(old(cache[i].hostname))))
                else old(cache[i])
    {
      for x := 0 to |cache|
        invariant |cache| == |old(cache)|
        invariant forall i | x <= i < |cache| :: cache[i] == old(cache[i])
        invariant forall i | 0 <= i < x :: cache[i] ==
                    if old(cache[i].Pending())
                    then old(cache[i]).(resolved := true, addr := AddressOf(gethostbyname(old(cache[i].hostname))))
                    else old(cache[i])
      {
        if cache[x].lastUsed != 0 && !cache[x].resolved && cache[x].hostname != "" {
          var hostentry := gethostbyname(cache[x].hostname);
          cache := cache[x := cache[x].(resolved := true, addr := AddressOf(hostentry))];
        }
      }
      threadKill := true;
    }

    method MakeSureThreadIsRunning(created: bool)
      modifies this`threadKill
      ensures threadKill == (old(threadKill) && !created)
    {
      if threadKill {
        threadKill := !created;
      }
    }
  }

  // --- Runs ---

  /** What is known of the worker's current or last pass, and the resolver's last answer for each name: history
      only. */
  datatype History = History(pending: set<string>, answered: set<string>, latest: map<string, Option<Address>>)

  /** `asking` is the name the worker waits for, at slot `pos` of its pass. */
  datatype State = State(cache: seq<Slot>, running: bool, pos: nat, asking: Option<string>, history: History)

  /** `answer` is what the resolver found. */
  datatype Action =
    | Resolve(hostname: string, now: nat, created: bool)
    | WorkerLook
    | WorkerStore(answer: Option<Address>)
    | WorkerEnd

  function Initial(size: nat): State {
    State(seq(size, _ => FREE), false, 0, None, History({}, {}, map[]))
  }

  function PendingNames(cache: seq<Slot>): set<string> {
    set i | 0 <= i < |cache| && cache[i].Pending() :: cache[i].hostname
  }

  /** One step; a step of the worker that is not next changes nothing. */
  function Apply(s: State, a: Action): State {
    match a
    case Resolve(hostname, now, created) =>
      var (cache, reply) := Resolved(s.cache, hostname, now);
      if reply == Wait && created && !s.running then
        State(cache, true, 0, None, s.history.(pending := PendingNames(cache), answered := {}))
      else s.(cache := cache)
    case WorkerLook =>
      if !s.running || s.asking.Some? || s.pos >= |s.cache| then s
      else if s.cache[s.pos].Pending() then s.(asking := Some(s.cache[s.pos].hostname))
      else s.(pos := s.pos + 1)
    case WorkerStore(answer) =>
      if s.asking.None? || s.pos >= |s.cache| then s
      else
        var (name, addr) := (s.asking.value, AddressOf(answer));
        State(s.cache[s.pos := s.cache[s.pos].(resolved := true, addr := addr)], s.running, s.pos + 1, None,
              s.history.(answered := s.history.answered + {name}, latest := s.history.latest[Folded(name) := answer]))
    case WorkerEnd =>
      if s.asking.None? && s.pos >= |s.cache| then s.(running := false) else s
  }

  function Run(s: State, actions: seq<Action>): State {
    if actions == [] then s else Apply(Run(s, actions[..|actions| - 1]), actions[|actions| - 1])
  }

  /** Callers ask for names that fit a slot, and the clock is not at zero. The one caller there is copies the name into
      256 characters and refuses an empty one (`connection.cpp:144` and `connection.cpp:474`). */
  predicate Legal(a: Action) {
    a.Resolve? ==> 0 < |a.hostname| < NAME_SIZE && a.now > 0
  }

  // --- What every run keeps ---

  /** The used slots come first, have names, and no name twice; the others are as they were made. */
  predicate CacheInv(cache: seq<Slot>) {
    && (forall i | 0 <= i < |cache| :: if cache[i].lastUsed == 0 then cache[i] == FREE else cache[i].hostname != "")
    && (forall i, j | 0 <= i < j < |cache| && cache[i].lastUsed == 0 :: cache[j].lastUsed == 0)
    && (forall i, j | 0 <= i < j < |cache| && cache[j].lastUsed != 0 ::
          Folded(cache[i].hostname) != Folded(cache[j].hostname))
  }

  /** A resolved slot holds the last answer there was for its name; all ones stand for none. */
  predicate AnswersInv(cache: seq<Slot>, latest: map<string, Option<Address>>) {
    forall i | 0 <= i < |cache| && cache[i].resolved ::
      && Folded(cache[i].hostname) in latest
      && match latest[Folded(cache[i].hostname)] {
           case Some(addr) => cache[i].addr == addr
           case None => cache[i].addr == INADDR_NONE
         }
  }

  /** The slot the worker asks for is the one it will store the answer in. */
  predicate WorkerInv(s: State) {
    s.asking.Some? ==>
      s.running && s.pos < |s.cache| && s.cache[s.pos].Pending() && s.cache[s.pos].hostname == s.asking.value
  }

  /** A name pending when the pass began has been answered or is still ahead. */
  predicate PassInv(s: State) {
    s.running ==> forall name | name in s.history.pending ::
      || name in s.history.answered
      || exists i :: s.pos <= i < |s.cache| && s.cache[i].Pending() && s.cache[i].hostname == name
  }

  predicate Inv(s: State) {
    CacheInv(s.cache) && AnswersInv(s.cache, s.history.latest) && WorkerInv(s) && PassInv(s)
  }

  /** The slot of a hit was used before; only its time changes. */
  predicate Touched(cache: seq<Slot>, cache': seq<Slot>, x: nat, now: nat) {
    x < |cache| && cache[x].lastUsed != 0 && cache' == cache[x := cache[x].(lastUsed := now)]
  }

  /** A new name takes the first free slot, or the least recently used resolved one when no slot is free. */
  predicate Entered(cache: seq<Slot>, cache': seq<Slot>, v: nat, name: string, now: nat) {
    && v < |cache| && Absent(cache, name, |cache|)
    && (LeastRecent(cache, |cache|, v) || FirstFree(cache, v))
    && cache' == cache[v := Slot(now, false, name, INADDR_NONE)]
  }

  /** What `resolve` does to the cache, and that it replies from the slot it found. */
  lemma ResolveEffect(cache: seq<Slot>, name: string, now: nat) returns (x: nat)
    requires CacheInv(cache) && 0 < |name| < NAME_SIZE
    ensures var (cache', reply) := Resolved(cache, name, now);
            || (Touched(cache, cache', x, now) && Folded(cache[x].hostname) == Folded(name)
                && reply == ResolvedReply(cache[x]))
            || (Entered(cache, cache', x, name, now) && reply == Wait)
            || (cache' == cache && reply == Unresolvable && Absent(cache, name, |cache|)
                && LeastRecent(cache, |cache|, -1))
  {
    x := SlotOf(cache, name, 0);
    if x < |cache| {
      assert cache[x].hostname != "";
    } else {
      var v := Victim(cache);
      x := if v == -1 then 0 else v;
    }
  }

  lemma TouchedKeepsCache(cache: seq<Slot>, cache': seq<Slot>, x: nat, now: nat)
    requires CacheInv(cache) && Touched(cache, cache', x, now) && now > 0
    ensures CacheInv(cache')
  {
    assert forall i | 0 <= i < |cache| :: cache'[i].hostname == cache[i].hostname;
    assert forall i | 0 <= i < |cache| :: cache'[i].lastUsed == 0 <==> cache[i].lastUsed == 0;
  }

  lemma EnteredKeepsCache(cache: seq<Slot>, cache': seq<Slot>, v: nat, name: string, now: nat)
    requires CacheInv(cache) && Entered(cache, cache', v, name, now) && now > 0 && name != ""
    ensures CacheInv(cache')
  {
    assert forall i | 0 <= i < |cache| && i != v :: cache'[i] == cache[i];
  }

  lemma ResolveKeepsCache(cache: seq<Slot>, name: string, now: nat)
    requires CacheInv(cache) && 0 < |name| < NAME_SIZE && now > 0
    ensures CacheInv(Resolved(cache, name, now).0)
  {
    var x := ResolveEffect(cache, name, now);
    var cache' := Resolved(cache, name, now).0;
    if Touched(cache, cache', x, now) {
      TouchedKeepsCache(cache, cache', x, now);
    } else if Entered(cache, cache', x, name, now) {
      EnteredKeepsCache(cache, cache', x, name, now);
    }
  }

  /** An unresolved entry is never evicted by `resolve`. */
  lemma PendingStays(cache: seq<Slot>, name: string, now: nat, i: nat)
    requires CacheInv(cache) && 0 < |name| < NAME_SIZE && now > 0
    requires i < |cache| && cache[i].Pending()
    ensures var slot := Resolved(cache, name, now).0[i]; slot.Pending() && slot.hostname == cache[i].hostname
  {
    var x := ResolveEffect(cache, name, now);
  }

  lemma ResolveKeepsAnswers(cache: seq<Slot>, name: string, now: nat, latest: map<string, Option<Address>>)
    requires CacheInv(cache) && 0 < |name| < NAME_SIZE && AnswersInv(cache, latest)
    ensures AnswersInv(Resolved(cache, name, now).0, latest)
  {
    var x := ResolveEffect(cache, name, now);
    var cache' := Resolved(cache, name, now).0;
    assert forall i | 0 <= i < |cache| && i != x :: cache'[i] == cache[i];
  }

  lemma ResolveKeepsInv(s: State, name: string, now: nat, created: bool)
    requires Inv(s) && 0 < |name| < NAME_SIZE && now > 0
    ensures Inv(Apply(s, Resolve(name, now, created)))
  {
    var s' := Apply(s, Resolve(name, now, created));
    ResolveKeepsCache(s.cache, name, now);
    ResolveKeepsAnswers(s.cache, name, now, s.history.latest);
    if s.running {
      if s.asking.Some? {
        PendingStays(s.cache, name, now, s.pos);
      }
      forall n | n in s.history.pending && n !in s.history.answered
        ensures exists i :: s.pos <= i < |s'.cache| && s'.cache[i].Pending() && s'.cache[i].hostname == n
      {
        var i :| s.pos <= i < |s.cache| && s.cache[i].Pending() && s.cache[i].hostname == n;
        PendingStays(s.cache, name, now, i);
      }
    }
  }

  lemma LookKeepsInv(s: State)
    requires Inv(s)
    ensures Inv(Apply(s, WorkerLook))
  {
    var s' := Apply(s, WorkerLook);
    if s'.running {
      forall n | n in s.history.pending && n !in s.history.answered
        ensures exists i :: s'.pos <= i < |s.cache| && s.cache[i].Pending() && s.cache[i].hostname == n
      {
        var i :| s.pos <= i < |s.cache| && s.cache[i].Pending() && s.cache[i].hostname == n;
      }
    }
  }

  lemma StoreKeepsInv(s: State, answer: Option<Address>)
    requires Inv(s) && s.asking.Some?
    ensures Inv(Apply(s, WorkerStore(answer)))
  {
    var s' := Apply(s, WorkerStore(answer));
    var p := s.pos;
    assert forall i | 0 <= i < |s.cache| && i != p :: s'.cache[i] == s.cache[i];
    assert forall i | 0 <= i < |s.cache| ::
        s'.cache[i].hostname == s.cache[i].hostname && s'.cache[i].lastUsed == s.cache[i].lastUsed;
    forall i | 0 <= i < |s.cache| && s'.cache[i].resolved
      ensures Folded(s'.cache[i].hostname) in s'.history.latest
      ensures s'.cache[i].addr == AddressOf(s'.history.latest[Folded(s'.cache[i].hostname)])
    {
      if i != p {
        assert s.cache[i].lastUsed != 0;
        assert Folded(s.cache[i].hostname) != Folded(s.cache[p].hostname);
      }
    }
    forall n | n in s.history.pending && n !in s'.history.answered
      ensures exists i :: p + 1 <= i < |s'.cache| && s'.cache[i].Pending() && s'.cache[i].hostname == n
    {
      var i :| p <= i < |s.cache| && s.cache[i].Pending() && s.cache[i].hostname == n;
      assert s'.cache[i] == s.cache[i];
    }
  }

  lemma StepKeepsInv(s: State, a: Action)
    requires Inv(s) && Legal(a)
    ensures Inv(Apply(s, a))
  {
    match a
    case Resolve(hostname, now, created) => ResolveKeepsInv(s, hostname, now, created);
    case WorkerLook => LookKeepsInv(s);
    case WorkerStore(answer) => if s.asking.Some? { StoreKeepsInv(s, answer); }
    case WorkerEnd =>
  }

  lemma {:induction false} RunKeepsInv(size: nat, actions: seq<Action>)
    requires forall a | a in actions :: Legal(a)
    ensures Inv(Run(Initial(size), actions))
  {
    if actions != [] {
      RunKeepsInv(size, actions[..|actions| - 1]);
      StepKeepsInv(Run(Initial(size), actions[..|actions| - 1]), actions[|actions| - 1]);
    }
  }

  // --- What callers see ---

  /** Some slot holds the name, in whatever case, and is resolved, or is not. */
  predicate Holds(cache: seq<Slot>, name: string, resolved: bool) {
    exists i :: 0 <= i < |cache| && Folded(cache[i].hostname) == Folded(name) && cache[i].resolved == resolved
  }

  /** Every slot is waiting for its answer. */
  predicate Full(cache: seq<Slot>) {
    forall i | 0 <= i < |cache| :: cache[i].Pending()
  }

  lemma HeldOnce(cache: seq<Slot>, name: string, x: nat)
    requires CacheInv(cache) && name != "" && x < |cache| && Folded(cache[x].hostname) == Folded(name)
    ensures forall i | 0 <= i < |cache| && Folded(cache[i].hostname) == Folded(name) :: i == x
    ensures cache[x].lastUsed != 0
    ensures Holds(cache, name, cache[x].resolved) && !Holds(cache, name, !cache[x].resolved)
  {
    assert |Folded(name)| > 0 && |Folded("")| == 0;
  }

  /** In every run, for every name: an address is given exactly when the name is resolved and the resolver's last answer
      for it, in whatever case, was this address; a name is refused exactly when that answer was none (or all ones), or
      when it is not held and every slot is waiting; and "wait" is said exactly when the name is held unresolved, or is
      not held and there is a slot to take. */
  lemma RepliesAreAnswers(size: nat, actions: seq<Action>, name: string, now: nat)
    requires forall a | a in actions :: Legal(a)
    requires 0 < |name| < NAME_SIZE
    ensures var s := Run(Initial(size), actions);
            var reply := Resolved(s.cache, name, now).1;
            var held, pending := Holds(s.cache, name, true), Holds(s.cache, name, false);
            && (held ==> Folded(name) in s.history.latest)
            && (forall addr ::
                  reply == Found(addr) <==> held && s.history.latest[Folded(name)] == Some(addr) && addr != INADDR_NONE)
            && (reply == Unresolvable <==>
                  || (held && s.history.latest[Folded(name)] in {None, Some(INADDR_NONE)})
                  || (!held && !pending && Full(s.cache)))
            && (reply == Wait <==> pending || (!held && !Full(s.cache)))
  {
    var s := Run(Initial(size), actions);
    RunKeepsInv(size, actions);
    var x := ResolveEffect(s.cache, name, now);
    if !Absent(s.cache, name, |s.cache|) {
      var k :| 0 <= k < |s.cache| && Folded(s.cache[k].hostname) == Folded(name);
      HeldOnce(s.cache, name, k);
    }
  }

  /** The least recently used resolved entry gives way, and only when every slot is used. */
  lemma EvictsLeastRecent(size: nat, actions: seq<Action>, name: string, now: nat, v: nat)
    requires forall a | a in actions :: Legal(a)
    requires 0 < |name| < NAME_SIZE
    ensures var cache := Run(Initial(size), actions).cache;
            var cache' := Resolved(cache, name, now).0;
            v < |cache| && cache[v].lastUsed != 0 && cache'[v].hostname != cache[v].hostname ==>
              && cache[v].resolved && cache'[v].hostname == name
              && (forall i | 0 <= i < |cache| :: cache[i].lastUsed != 0)
              && (forall i | 0 <= i < |cache| && cache[i].resolved :: cache[v].lastUsed <= cache[i].lastUsed)
  {
    RunKeepsInv(size, actions);
    var x := ResolveEffect(Run(Initial(size), actions).cache, name, now);
  }

  /** When the worker ends a pass, everything pending at its start has been answered in it. */
  lemma PassResolvesPending(size: nat, actions: seq<Action>)
    requires forall a | a in actions :: Legal(a)
    ensures var s := Run(Initial(size), actions);
            s.running && !Apply(s, WorkerEnd).running ==> s.history.pending <= s.history.answered
  {
    RunKeepsInv(size, actions);
  }

  // --- Waiting ends ---

  /** Steps of the worker alone. */
  predicate AllWorker(steps: seq<Action>) {
    forall i | 0 <= i < |steps| :: !steps[i].Resolve?
  }

  lemma {:induction false} RunAppend(s: State, first: seq<Action>, second: seq<Action>)
    ensures Run(s, first + second) == Run(Run(s, first), second)
    decreases |second|
  {
    if second == [] {
      assert first + [] == first;
    } else {
      var init, last := second[..|second| - 1], second[|second| - 1];
      RunAppend(s, first, init);
      assert (first + second)[..|first + second| - 1] == first + init;
    }
  }

  lemma RunStep(s: State, a: Action, more: seq<Action>)
    ensures Run(s, [a] + more) == Run(Apply(s, a), more)
  {
    RunAppend(s, [a], more);
    assert [a][..0] == [];
  }

  lemma RunTwo(s: State, a: Action, b: Action)
    ensures Run(s, [a]) == Apply(s, a) && Run(s, [a, b]) == Apply(Apply(s, a), b)
  {
    assert [a][..0] == [] && [a, b][..1] == [a];
  }

  /** The slots from `pos` on after a pass in which the resolver answers as `ask` says: every pending one has its
      answer, the others stay. */
  predicate Answered(before: seq<Slot>, after: seq<Slot>, pos: nat, ask: string -> Option<Address>) {
    && |after| == |before|
    && forall i | 0 <= i < |after| :: after[i] ==
         if i >= pos && before[i].Pending()
         then before[i].(resolved := true, addr := AddressOf(ask(before[i].hostname)))
         else before[i]
  }

  /** What the worker does at its position: the slot is passed over, or asked for and answered. */
  lemma PassSlot(s: State, ask: string -> Option<Address>) returns (steps: seq<Action>, s': State)
    requires WorkerInv(s) && s.running && s.pos < |s.cache|
    ensures AllWorker(steps) && s' == Run(s, steps)
    ensures s'.running && s'.asking.None? && s'.pos == s.pos + 1 && |s'.cache| == |s.cache|
    ensures forall i | 0 <= i < |s.cache| :: s'.cache[i] ==
              if i == s.pos && s.cache[i].Pending()
              then s.cache[i].(resolved := true, addr := AddressOf(ask(s.cache[i].hostname)))
              else s.cache[i]
  {
    var slot := s.cache[s.pos];
    var store := WorkerStore(ask(slot.hostname));
    if s.asking.Some? {
      steps := [store];
      RunStep(s, store, []);
      assert steps + [] == steps;
    } else if slot.Pending() {
      steps := [WorkerLook, store];
      RunTwo(s, WorkerLook, store);
    } else {
      steps := [WorkerLook];
      RunStep(s, WorkerLook, []);
      assert steps + [] == steps;
    }
    s' := Run(s, steps);
  }

  lemma AnsweredNext(before: seq<Slot>, next: seq<Slot>, after: seq<Slot>, pos: nat, ask: string -> Option<Address>)
    requires pos < |before| && |next| == |before|
    requires forall i | 0 <= i < |before| :: next[i] ==
               if i == pos && before[i].Pending()
               then before[i].(resolved := true, addr := AddressOf(ask(before[i].hostname)))
               else before[i]
    requires Answered(next, after, pos + 1, ask)
    ensures Answered(before, after, pos, ask)
  {
  }

  /** A pass that has begun can end, whatever the resolver answers, and then every slot that was pending ahead of the
      worker has its answer. */
  lemma {:induction false} PassCanEnd(s: State, ask: string -> Option<Address>) returns (steps: seq<Action>)
    requires WorkerInv(s) && s.running
    ensures AllWorker(steps) && !Run(s, steps).running && Run(s, steps).asking.None?
    ensures Answered(s.cache, Run(s, steps).cache, s.pos, ask)
    decreases |s.cache| - s.pos
  {
    if s.pos < |s.cache| {
      var first, next := PassSlot(s, ask);
      var rest := PassCanEnd(next, ask);
      steps := first + rest;
      RunAppend(s, first, rest);
      AnsweredNext(s.cache, next.cache, Run(next, rest).cache, s.pos, ask);
    } else {
      steps := [WorkerEnd];
      RunStep(s, WorkerEnd, []);
      assert steps + [] == steps;
    }
  }

  /** The answer for a name, as the resolver gives it for some spelling of it. */
  predicate FromResolver(reply: Reply, name: string, spelling: string, ask: string -> Option<Address>) {
    && Folded(spelling) == Folded(name)
    && reply == match ask(spelling) {
         case Some(addr) => if addr == INADDR_NONE then Unresolvable else Found(addr)
         case None => Unresolvable
       }
  }

  /** The slot `x` holds the name and got its answer. */
  predicate GotAnswer(cache: seq<Slot>, name: string, x: nat, ask: string -> Option<Address>) {
    && x < |cache| && Folded(cache[x].hostname) == Folded(name)
    && cache[x].resolved && cache[x].addr == AddressOf(ask(cache[x].hostname))
  }

  lemma ReplyFromSlot(cache: seq<Slot>, name: string, x: nat, ask: string -> Option<Address>, now: nat)
    requires CacheInv(cache) && 0 < |name| < NAME_SIZE && GotAnswer(cache, name, x, ask)
    ensures FromResolver(Resolved(cache, name, now).1, name, cache[x].hostname, ask)
  {
    var y := ResolveEffect(cache, name, now);
    HeldOnce(cache, name, x);
  }

  /** A call does not disturb a pass, and a pass begins only with a call that says "wait". */
  lemma OneWorker(s: State, name: string, now: nat, created: bool)
    ensures var s' := Apply(s, Resolve(name, now, created));
            if s.running then s'.running && s'.pos == s.pos && s'.asking == s.asking
            else s'.running <==> created && Resolved(s.cache, name, now).1 == Wait
  {
  }

  lemma PendingSlot(cache: seq<Slot>, name: string) returns (x: nat)
    requires CacheInv(cache) && name != "" && Holds(cache, name, false)
    ensures x < |cache| && cache[x].Pending() && Folded(cache[x].hostname) == Folded(name)
  {
    x :| 0 <= x < |cache| && Folded(cache[x].hostname) == Folded(name) && !cache[x].resolved;
    HeldOnce(cache, name, x);
  }

  /** A call that says "wait" while no worker runs, and can make one, starts a pass over a cache with the name in it. */
  lemma WaitStartsPass(s: State, name: string, now: nat)
    requires Inv(s) && !s.running && 0 < |name| < NAME_SIZE && now > 0
    requires Resolved(s.cache, name, now).1 == Wait
    ensures var s' := Apply(s, Resolve(name, now, true));
            s'.running && s'.pos == 0 && s'.asking.None? && Holds(s'.cache, name, false)
  {
    var x := ResolveEffect(s.cache, name, now);
    var slot := Apply(s, Resolve(name, now, true)).cache[x];
    assert Folded(slot.hostname) == Folded(name) && !slot.resolved;
  }

  /** After the call, one pass answers the name. */
  lemma CallAndPass(s: State, name: string, now: nat, ask: string -> Option<Address>)
      returns (steps: seq<Action>, x: nat)
    requires Inv(s) && !s.running && 0 < |name| < NAME_SIZE && now > 0
    requires Resolved(s.cache, name, now).1 == Wait
    ensures |steps| > 0 && steps[0] == Resolve(name, now, true) && AllWorker(steps[1..])
    ensures GotAnswer(Run(s, steps).cache, name, x, ask)
  {
    var call := Resolve(name, now, true);
    var s' := Apply(s, call);
    WaitStartsPass(s, name, now);
    ResolveKeepsInv(s, name, now, true);
    x := PendingSlot(s'.cache, name);
    var pass := PassCanEnd(s', ask);
    steps := [call] + pass;
    RunStep(s, call, pass);
  }

  lemma PassKeepsHeld(before: seq<Slot>, after: seq<Slot>, pos: nat, ask: string -> Option<Address>, name: string)
    requires Answered(before, after, pos, ask)
    requires Holds(before, name, true) || Holds(before, name, false) || !Full(before)
    ensures Holds(after, name, true) || Holds(after, name, false) || !Full(after)
    ensures Holds(before, name, true) ==> Holds(after, name, true)
    ensures !Holds(before, name, true) && Holds(after, name, true) ==> exists x :: GotAnswer(after, name, x, ask)
  {
    if i :| 0 <= i < |before| && Folded(before[i].hostname) == Folded(name) {
      assert Folded(after[i].hostname) == Folded(name) && (before[i].resolved ==> after[i].resolved);
      assert Holds(after, name, after[i].resolved);
    } else if i :| 0 <= i < |before| && !before[i].Pending() {
      assert !after[i].Pending();
    }
    if !Holds(before, name, true) && Holds(after, name, true) {
      var x :| 0 <= x < |after| && Folded(after[x].hostname) == Folded(name) && after[x].resolved;
      assert Folded(before[x].hostname) == Folded(name) ==> !before[x].resolved;
      assert GotAnswer(after, name, x, ask);
    }
  }

  /** Whatever happened before: if a name is held, or there is a slot to take, then the worker's steps and at most one
      more call for the name lead to where the name gets a reply other than "wait". Unless the name was resolved
      already, the reply is what the resolver says about some spelling of it. */
  lemma WaitingCanEnd(size: nat, actions: seq<Action>, name: string, now: nat, ask: string -> Option<Address>)
      returns (pass: seq<Action>, more: seq<Action>)
    requires (forall a | a in actions :: Legal(a)) && 0 < |name| < NAME_SIZE && now > 0
    requires var cache := Run(Initial(size), actions).cache;
             Holds(cache, name, true) || Holds(cache, name, false) || !Full(cache)
    ensures AllWorker(pass) && (more == [] || (more[0] == Resolve(name, now, true) && AllWorker(more[1..])))
    ensures var s := Run(Initial(size), actions);
            var reply := Resolved(Run(Initial(size), actions + pass + more).cache, name, now).1;
            && reply != Wait
            && (!Holds(s.cache, name, true) ==> exists spelling :: FromResolver(reply, name, spelling, ask))
  {
    var s := Run(Initial(size), actions);
    RunKeepsInv(size, actions);
    pass := [];
    if s.running {
      pass := PassCanEnd(s, ask);
    }
    RunAppend(Initial(size), actions, pass);
    RunKeepsInv(size, actions + pass);
    var s1 := Run(s, pass);
    PassKeepsHeld(s.cache, s1.cache, if s.running then s.pos else |s.cache|, ask, name);
    RepliesAreAnswers(size, actions + pass, name, now);
    if Resolved(s1.cache, name, now).1 == Wait {
      var x;
      more, x := CallAndPass(s1, name, now, ask);
      RunAppend(Initial(size), actions + pass, more);
      RunKeepsInv(size, actions + pass + more);
      ReplyFromSlot(Run(s1, more).cache, name, x, ask, now);
    } else {
      more := [];
      assert actions + pass + [] == actions + pass;
      if !Holds(s.cache, name, true) {
        var x :| GotAnswer(s1.cache, name, x, ask);
        ReplyFromSlot(s1.cache, name, x, ask, now);
      }
    }
  }

  // --- Which names the cache can hold ---

  /** Calls for `name` and for names that fit. */
  predicate Asks(a: Action, name: string) {
    a.Resolve? ==> a.now > 0 && (a.hostname == name || 0 < |a.hostname| < NAME_SIZE)
  }

  predicate AllAsk(actions: seq<Action>, name: string) {
    forall i | 0 <= i < |actions| :: Asks(actions[i], name)
  }

  lemma {:induction false} RunKeepsSize(size: nat, actions: seq<Action>)
    ensures |Run(Initial(size), actions).cache| == size
  {
    if actions != [] {
      RunKeepsSize(size, actions[..|actions| - 1]);
    }
  }

  lemma OneSlotResolved(cache: seq<Slot>, name: string, now: nat)
    requires |cache| == 1 && CacheInv(cache) && name != "" && now > 0
    ensures var cache' := Resolved(cache, name, now).0;
            && CacheInv(cache')
            && (cache[0].Pending() ==> cache'[0].Pending() && cache'[0].hostname == cache[0].hostname)
  {
    assert |Folded(name)| > 0 && |Folded("")| == 0;
    var v := Victim(cache);
    assert v == -1 || v == 0;
  }

  /** One slot keeps in order whatever is asked for. */
  lemma {:induction false} OneSlotKeepsInv(actions: seq<Action>, name: string)
    requires AllAsk(actions, name) && name != ""
    ensures var s := Run(Initial(1), actions);
            |s.cache| == 1 && CacheInv(s.cache) && WorkerInv(s)
  {
    if actions != [] {
      var (init, a) := (actions[..|actions| - 1], actions[|actions| - 1]);
      var s := Run(Initial(1), init);
      OneSlotKeepsInv(init, name);
      assert Asks(a, name);
      if a.Resolve? {
        OneSlotResolved(s.cache, a.hostname, a.now);
      }
    }
  }

  lemma EmptyNameBreaks(size: nat)
    requires size > 0
    ensures !CacheInv(Run(Initial(size), [Resolve("", 1, false)]).cache)
  {
    var cache := Initial(size).cache;
    RunTwo(Initial(size), Resolve("", 1, false), WorkerEnd);
    assert SlotOf(cache, "", 0) == 0;
    var cache' := Resolved(cache, "", 1).0;
    assert cache'[0].lastUsed == 1 && cache'[0].hostname == "";
  }

  /** A name that does not fit is cut off, is not found again, and is entered once more. */
  lemma LongNameRepeats(size: nat, name: string)
    requires size > 1 && |name| >= NAME_SIZE
    ensures !CacheInv(Run(Initial(size), [Resolve(name, 1, false), Resolve(name, 1, false)]).cache)
  {
    var a := Resolve(name, 1, false);
    var cut := Slot(1, false, name[..NAME_SIZE - 1], INADDR_NONE);
    var cache := Initial(size).cache;
    var first := cache[0 := cut];
    assert |Folded("")| == 0 && |Folded(name)| == |name| && |Folded(cut.hostname)| == NAME_SIZE - 1;
    assert Absent(cache, name, size) && SlotOf(cache, name, 0) == size;
    assert Resolved(cache, name, 1).0 == first;
    assert Absent(first, name, size) && SlotOf(first, name, 0) == size;
    var second := first[1 := cut];
    assert Resolved(first, name, 1).0 == second by {
      assert VictimFrom(first, 1, -1) == 1 && Victim(first) == 1;
    }
    RunTwo(Initial(size), a, a);
    assert Apply(Initial(size), a).cache == first;
    assert Apply(Apply(Initial(size), a), a).cache == second;
    assert second[0] == second[1] == cut;
  }

  /** Every run of calls for a name, among others that fit and are not empty, keeps the cache in order if and only if
      the name is not empty (or there is no slot) and has fewer than 256 characters (or there is one slot at most). The
      one caller there is never asks for a name that fails this; another might. */
  lemma CacheInOrderIff(size: nat, name: string)
    ensures (forall actions | AllAsk(actions, name) :: CacheInv(Run(Initial(size), actions).cache))
       <==> (name != "" || size == 0) && (|name| < NAME_SIZE || size < 2)
  {
    if name == "" && size > 0 {
      EmptyNameBreaks(size);
      assert AllAsk([Resolve("", 1, false)], name);
    } else if |name| >= NAME_SIZE && size > 1 {
      LongNameRepeats(size, name);
      assert AllAsk([Resolve(name, 1, false), Resolve(name, 1, false)], name);
    } else {
      forall actions | AllAsk(actions, name) ensures CacheInv(Run(Initial(size), actions).cache) {
        RunKeepsSize(size, actions);
        if size == 1 {
          OneSlotKeepsInv(actions, name);
        } else if size > 1 {
          assert forall a | a in actions :: Legal(a);
          RunKeepsInv(size, actions);
        }
      }
    }
  }
}
