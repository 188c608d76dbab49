/**
 * sctpThread.cpp and mapWrapper.h of the E2 termination: connections to E2 nodes
 * are accepted, named by their setup, looked up by RAN name, closed, or cleared
 * all at once.
 */
module Registry {
  import opened Bits
  import opened RanName

  type Addr = nat   // of a ConnectedCU_t on the C heap

  /** ConnectedCU_t, as far as the registry is concerned. */
  datatype Peer = Peer(host: string, port: string, name: string, open: bool, connected: bool)

  /** What the outside sees of a peer. */
  datatype Note = Closed(peer: Addr) | Freed(peer: Addr) | Reported(name: string)

  /** faulty: freed memory has been touched. */
  datatype State = State(peers: map<Addr, Peer>, registry: map<string, Addr>, log: seq<Note>, faulty: bool)

  const INITIAL := State(map[], map[], [], false)

  // ----- setup messages -----

  /** Information elements of an E2 setup request. */
  datatype Ie = Identity(node: NodeId) | Functions(ok: bool) | Other

  /** The identity the collecting loop reaches: one without choice or bad functions end it. */
  function Reached(ies: seq<Ie>): Option<NodeId> {
    if ies == [] || ies[0] == Functions(false) || ies[0] == Identity(Nothing) then None
    else if ies[0].Identity? then Some(ies[0].node)
    else Reached(ies[1..])
  }

  /** Nodes whose names fit, and no second identity. */
  predicate Modelled(ies: seq<Ie>) {
    && (forall i :: 0 <= i < |ies| && ies[i].Identity? ==> Fits(ies[i].node))
    && forall i, j :: 0 <= i < j < |ies| && ies[i].Identity? ==> !ies[j].Identity?
  }

  lemma {:induction false} ReachedNode(ies: seq<Ie>)
    requires Modelled(ies)
    ensures Reached(ies).Some? ==> Fits(Reached(ies).value) && Reached(ies).value.NodeId?
  {
    if ies != [] && !ies[0].Identity? {
      assert Modelled(ies[1..]) by {
        assert forall i :: 0 <= i < |ies| - 1 ==> ies[1..][i] == ies[i + 1];
      }
      ReachedNode(ies[1..]);
    }
  }

  function NewName(ies: seq<Ie>): string
    requires Modelled(ies)
  {
    ReachedNode(ies);
    if Reached(ies).Some? then Name(Reached(ies).value) else ""
  }

  /** memcpy of the new name without its zero over the old one: the tail of a longer old name stays. */
  function Overlay(was: string, name: string): (s: string)
    ensures |s| == if |was| > |name| then |was| else |name|
    ensures forall i :: 0 <= i < |s| ==> s[i] == if i < |name| then name[i] else was[i]
  {
    if |name| < |was| then name + was[|name|..] else name
  }

  // ----- steps -----

  datatype Event =
    | Accept(peer: Addr, host: string, port: string)
    | Refuse                                  // accepting failed part way: the new structure is left alone
    | Setup(peer: Addr, ies: seq<Ie>)
    | HangUp(peer: Addr)
    | PollError(peer: Addr)
    | Send(name: string, mtype: string, ok: bool)
    | ClearAll(order: seq<string>)            // the order in which the hash map lists its keys

  function HostKey(p: Peer): string {
    "host:" + p.host + ":" + p.port
  }

  function MessageKey(name: string, mtype: string): string {
    "msg:" + name + "|" + mtype
  }

  function Close(s: State, a: Addr): State {
    if a in s.peers then s.(peers := s.peers[a := s.peers[a].(open := false)], log := s.log + [Closed(a)])
    else s.(faulty := true)
  }

  function Free(s: State, a: Addr): State {
    if a in s.peers then s.(peers := s.peers - {a}, log := s.log + [Freed(a)]) else s.(faulty := true)
  }

  function Report(s: State, a: Addr): State {
    if a in s.peers then s.(log := s.log + [Reported(s.peers[a].name)]) else s.(faulty := true)
  }

  function Erase(s: State, key: string): State {
    s.(registry := s.registry - {key})
  }

  /** cleanHashEntry */
  function Clean(s: State, a: Addr): State {
    if a in s.peers then Free(Erase(Erase(s, HostKey(s.peers[a])), s.peers[a].name), a) else s.(faulty := true)
  }

  /** The collecting step of an E2 setup. */
  function Named(s: State, a: Addr, ies: seq<Ie>): State
    requires Modelled(ies)
  {
    if a !in s.peers then s.(faulty := true)
    else
      var name := NewName(ies);
      var t := s.(peers := s.peers[a := s.peers[a].(name := name)]);
      if Reached(ies).Some? then t.(registry := t.registry[Overlay(s.peers[a].name, name) := a]) else t
  }

  /** sendMessagetoCu and sendSctpMsg: only a connected peer is dropped when sending fails. */
  function Sent(s: State, name: string, mtype: string, ok: bool): State {
    if name !in s.registry then s
    else
      var a := s.registry[name];
      if a !in s.peers then s.(faulty := true)
      else if ok || !s.peers[a].connected then s
      else
        var t := Clean(s, a);
        var u := t.(log := t.log + [Closed(a)]);
        var key := MessageKey(name, mtype);
        Erase(if key in u.registry then Free(u, u.registry[key]) else u, key)
  }

  /** One key of the clearing loop. */
  function ClearedOne(s: State, key: string): State {
    if Filtered(key) || key !in s.registry then s
    else
      var a := s.registry[key];
      Free(Report(Close(s, a), a), a)
  }

  function ClearedKeys(s: State, keys: seq<string>, n: nat): State
    requires n <= |keys|
  {
    if n == 0 then s else ClearedOne(ClearedKeys(s, keys, n - 1), keys[n - 1])
  }

  function Step(s: State, e: Event): State
    requires e.Setup? ==> Modelled(e.ies)
  {
    match e
    case Accept(a, host, port) => s.(peers := s.peers[a := Peer(host, port, "", true, false)])
    case Refuse => s
    case Setup(a, ies) => Named(s, a, ies)
    case HangUp(a) => Clean(Close(Report(s, a), a), a)
    case PollError(a) =>
      var t := Close(Report(s, a), a);
      Clean(if a in s.peers then Erase(t, s.peers[a].name) else t, a)
    case Send(name, mtype, ok) => Sent(s, name, mtype, ok)
    case ClearAll(order) => ClearedKeys(s, order, |order|).(registry := map[])
  }

  /** Events the termination can get: peers with events are those still allocated. */
  ghost predicate Enabled(s: State, e: Event) {
    match e
    case Accept(a, _, _) => a !in s.peers
    case Refuse => true
    case Setup(a, ies) => a in s.peers && Modelled(ies)
    case HangUp(a) => a in s.peers
    case PollError(a) => a in s.peers
    case Send(_, _, _) => true
    case ClearAll(order) => Lists(order, s.registry)
  }

  /** All keys, each once. */
  ghost predicate Lists(order: seq<string>, m: map<string, Addr>) {
    && (forall k :: k in order <==> k in m)
    && forall i, j :: 0 <= i < j < |order| ==> order[i] != order[j]
  }

  /** A setup carries a valid identity, the one this connection announced before, if it did. */
  ghost predicate Stable(s: State, e: Event)
    requires Enabled(s, e)
  {
    e.Setup? ==> Reached(e.ies).Some? && s.peers[e.peer].name in {"", NewName(e.ies)}
  }

  // ----- setups, position by position -----

  lemma {:induction false} ReachedAt(ies: seq<Ie>, i: nat, n: NodeId)
    requires i < |ies| && ies[i] == Identity(n) && n.NodeId?
    requires forall j :: 0 <= j < i ==> ies[j] != Functions(false) && !ies[j].Identity?
    ensures Reached(ies) == Some(n)
  {
    if i > 0 { ReachedAt(ies[1..], i - 1, n); }
  }

  lemma {:induction false} ReachedNot(ies: seq<Ie>)
    requires forall i :: 0 <= i < |ies| && ies[i].Identity? && ies[i].node.NodeId? ==>
               exists j :: 0 <= j < i && (ies[j] == Functions(false) || ies[j].Identity?)
    ensures Reached(ies) == None
  {
    if ies != [] && ies[0] != Functions(false) && ies[0] != Identity(Nothing) {
      assert !ies[0].Identity?;
      forall i | 0 <= i < |ies[1..]| && ies[1..][i].Identity? && ies[1..][i].node.NodeId?
        ensures exists j :: 0 <= j < i && (ies[1..][j] == Functions(false) || ies[1..][j].Identity?)
      {
        var j :| 0 <= j < i + 1 && (ies[j] == Functions(false) || ies[j].Identity?);
        assert ies[1..][j - 1] == ies[j];
      }
      ReachedNot(ies[1..]);
    }
  }

  /** Setups inside the model, spelled out: at most one identity, whose name fits its field. */
  lemma ModelledExactly(ies: seq<Ie>)
    ensures Modelled(ies) <==>
              && (forall i, j :: 0 <= i < j < |ies| ==> !(ies[i].Identity? && ies[j].Identity?))
              && forall i :: 0 <= i < |ies| && ies[i].Identity? && ies[i].node.NodeId? ==>
                   && |ies[i].node.plmn| == 3
                   && (ies[i].node.id.Some? || ies[i].node.kind.Gnb? || ies[i].node.kind.EnGnb?)
                   && |Name(ies[i].node)| < 64
  {
    hide Name;
    assert forall i :: 0 <= i < |ies| && ies[i].Identity? ==> (Fits(ies[i].node) || ies[i].node.NodeId?);
  }

  /**
   * A setup that carries a valid identity at position i, and no bad function list
   * before it, gives the peer that name and registers it; over an older name the
   * key keeps the older characters the new name does not cover.
   */
  lemma SetupNames(s: State, a: Addr, ies: seq<Ie>, i: nat, n: NodeId)
    requires a in s.peers && Modelled(ies) && i < |ies| && ies[i] == Identity(n) && n.NodeId?
    requires forall j :: 0 <= j < i ==> ies[j] != Functions(false)
    ensures ValidId(n)
    ensures var t, was := Step(s, Setup(a, ies)), s.peers[a].name;
            && t.peers == s.peers[a := s.peers[a].(name := Name(n))] && t.log == s.log && t.faulty == s.faulty
            && (|was| <= |Name(n)| ==> t.registry == s.registry[Name(n) := a])
            && (|was| > |Name(n)| ==> t.registry == s.registry[Name(n) + was[|Name(n)|..] := a])
    ensures NewName(ies) == Name(n) != ""
  {
    hide Name, Reached;
    ReachedAt(ies, i, n);
    NeverFiltered(n);
  }

  /** A setup without such an identity leaves the peer without a name and the registry as it is. */
  lemma SetupNamesNone(s: State, a: Addr, ies: seq<Ie>)
    requires a in s.peers && Modelled(ies)
    requires forall i :: 0 <= i < |ies| && ies[i].Identity? && ies[i].node.NodeId? ==>
               exists j :: 0 <= j < i && ies[j] == Functions(false)
    ensures Step(s, Setup(a, ies)) == s.(peers := s.peers[a := s.peers[a].(name := "")])
    ensures NewName(ies) == ""
  {
    hide Name, Reached, Modelled;
    ReachedNot(ies);
  }

  /** A setup is stable exactly if it carries such an identity, and the peer has its name or none yet. */
  lemma StableExactly(s: State, a: Addr, ies: seq<Ie>)
    requires Enabled(s, Setup(a, ies))
    ensures Stable(s, Setup(a, ies)) <==>
              exists i :: && 0 <= i < |ies| && ies[i].Identity? && ies[i].node.NodeId? && ValidId(ies[i].node)
                          && (forall j :: 0 <= j < i ==> ies[j] != Functions(false))
                          && (s.peers[a].name == "" || s.peers[a].name == Name(ies[i].node))
  {
    hide Name, Reached, Modelled, ValidId;
    if i :| 0 <= i < |ies| && ies[i].Identity? && ies[i].node.NodeId? && forall j :: 0 <= j < i ==> ies[j] != Functions(false) {
      SetupNames(s, a, ies, i, ies[i].node);
      OtherIdentity(ies, i);
      ReachedAt(ies, i, ies[i].node);
    } else {
      forall i | 0 <= i < |ies| && ies[i].Identity? && ies[i].node.NodeId?
        ensures exists j :: 0 <= j < i && (ies[j] == Functions(false) || ies[j].Identity?)
      {
        var j :| 0 <= j < i && ies[j] == Functions(false);
      }
      ReachedNot(ies);
    }
  }

  lemma OtherIdentity(ies: seq<Ie>, i: nat)
    requires Modelled(ies) && i < |ies| && ies[i].Identity?
    ensures forall j :: 0 <= j < |ies| && j != i ==> !ies[j].Identity?
  {
    hide Fits;
  }

  // ----- safety -----

  /**
   * Every registered name maps to an open, allocated peer whose recorded name is
   * the key; keys are RAN names; peers are open and never marked connected.
   */
  ghost predicate Inv(s: State) {
    && !s.faulty
    && (forall a :: a in s.peers ==> s.peers[a].open && !s.peers[a].connected && !Filtered(s.peers[a].name))
    && forall k :: k in s.registry ==>
         s.registry[k] in s.peers && s.peers[s.registry[k]].name == k && k != "" && !Filtered(k)
  }

  lemma NewNameGood(ies: seq<Ie>)
    requires Modelled(ies)
    ensures !Filtered(NewName(ies))
    ensures Reached(ies).Some? ==> NewName(ies) != ""
    ensures Reached(ies).None? ==> NewName(ies) == ""
  {
    hide Name, Filtered, Reached;
    ReachedNode(ies);
    if Reached(ies).Some? {
      NeverFiltered(Reached(ies).value);
    } else {
      EmptyNotFiltered();
    }
  }

  lemma EmptyNotFiltered()
    ensures !Filtered("")
  {
  }

  lemma HostKeyFiltered(p: Peer)
    ensures Filtered(HostKey(p))
  {
  }

  lemma MessageKeyFiltered(name: string, mtype: string)
    ensures Filtered(MessageKey(name, mtype))
  {
  }

  /** When a setup keeps the invariant: a registered name may not change, nor a longer name be overwritten. */
  ghost predicate KeepsName(s: State, a: Addr, ies: seq<Ie>)
    requires a in s.peers && Modelled(ies)
  {
    var was, name := s.peers[a].name, NewName(ies);
    && (was in s.registry && s.registry[was] == a ==> name == was)
    && (Reached(ies).Some? ==> |was| <= |name|)
  }

  /** Exactly when a setup keeps the invariant. */
  lemma SetupExactly(s: State, a: Addr, ies: seq<Ie>)
    requires Inv(s) && Enabled(s, Setup(a, ies))
    ensures Inv(Step(s, Setup(a, ies))) <==> KeepsName(s, a, ies)
  {
    hide Filtered, NewName, Reached, Modelled;
    NewNameGood(ies);
    var was, name := s.peers[a].name, NewName(ies);
    var t := Step(s, Setup(a, ies));
    if Inv(t) {
      if Reached(ies).Some? {
        var key := Overlay(was, name);
        assert key in t.registry && t.registry[key] == a && t.peers[a].name == name;
        assert key == name;
      }
    }
  }

  /** Closing a peer removes it and the name it has, whoever that maps to. */
  lemma DroppedKept(s: State, a: Addr)
    requires Inv(s) && a in s.peers
    ensures Inv(Step(s, HangUp(a))) && Inv(Step(s, PollError(a)))
    ensures var t := Step(s, HangUp(a));
            t == Step(s, PollError(a)) == State(s.peers - {a}, s.registry - {s.peers[a].name},
              s.log + [Reported(s.peers[a].name), Closed(a), Freed(a)], false)
  {
    hide Filtered;
    HostKeyFiltered(s.peers[a]);
    HostKeyFiltered(s.peers[a].(open := false));
    var p := s.peers[a];
    assert HostKey(p) !in s.registry;
    assert s.registry - {HostKey(p)} == s.registry;
    assert s.registry - {p.name} - {HostKey(p)} - {p.name} == s.registry - {p.name};
    assert s.peers[a := p.(open := false)] - {a} == s.peers - {a};
    assert s.log + [Reported(p.name)] + [Closed(a)] + [Freed(a)] == s.log + [Reported(p.name), Closed(a), Freed(a)];
  }

  /** No accepted peer is marked connected, so a failed send changes nothing. */
  lemma SendChangesNothing(s: State, name: string, mtype: string, ok: bool)
    requires Inv(s)
    ensures Step(s, Send(name, mtype, ok)) == s
  {
  }

  /** Sending to a peer marked connected, if it fails, drops the peer and its three keys and closes it after freeing it. */
  lemma SendDrops(s: State, name: string, mtype: string)
    requires name in s.registry && s.registry[name] in s.peers && s.peers[s.registry[name]].connected
    requires "msg:" + name + "|" + mtype !in s.registry
    ensures var a, p := s.registry[name], s.peers[s.registry[name]];
            Step(s, Send(name, mtype, false))
            == State(s.peers - {a},
                     s.registry - {"host:" + p.host + ":" + p.port, p.name, "msg:" + name + "|" + mtype},
                     s.log + [Freed(a), Closed(a)], s.faulty)
  {
    var a, p := s.registry[name], s.peers[s.registry[name]];
    var h, m := HostKey(p), MessageKey(name, mtype);
    assert s.registry - {h} - {p.name} - {m} == s.registry - {h, p.name, m};
    assert s.log + [Freed(a)] + [Closed(a)] == s.log + [Freed(a), Closed(a)];
  }

  // ----- clearing -----

  function Targets(s: State, keys: seq<string>, n: nat): set<Addr>
    requires n <= |keys| && forall k :: k in keys ==> k in s.registry
  {
    if n == 0 then {} else Targets(s, keys, n - 1) + {s.registry[keys[n - 1]]}
  }

  function ClearNotes(s: State, keys: seq<string>, n: nat): seq<Note>
    requires n <= |keys| && forall k :: k in keys ==> k in s.registry
  {
    if n == 0 then []
    else
      var a := s.registry[keys[n - 1]];
      ClearNotes(s, keys, n - 1) + [Closed(a), Reported(keys[n - 1]), Freed(a)]
  }

  /** The notes of clearing, in threes: a peer is closed, reported under its key, and then freed. */
  lemma {:induction false} ClearNotesAt(s: State, keys: seq<string>, n: nat, i: nat)
    requires i < n <= |keys| && forall k :: k in keys ==> k in s.registry
    ensures var notes := ClearNotes(s, keys, n);
            && |notes| == 3 * n
            && notes[3 * i] == Closed(s.registry[keys[i]])
            && notes[3 * i + 1] == Reported(keys[i])
            && notes[3 * i + 2] == Freed(s.registry[keys[i]])
  {
    if i < n - 1 {
      ClearNotesAt(s, keys, n - 1, i);
    } else {
      ClearNotesLength(s, keys, n - 1);
    }
  }

  lemma {:induction false} ClearNotesLength(s: State, keys: seq<string>, n: nat)
    requires n <= |keys| && forall k :: k in keys ==> k in s.registry
    ensures |ClearNotes(s, keys, n)| == 3 * n
  {
    if n > 0 { ClearNotesLength(s, keys, n - 1); }
  }

  /** Different keys have different peers. */
  lemma {:induction false} TargetFresh(s: State, keys: seq<string>, n: nat, m: nat)
    requires Inv(s) && Lists(keys, s.registry) && n <= m < |keys|
    ensures s.registry[keys[m]] !in Targets(s, keys, n)
  {
    hide Filtered;
    if n > 0 {
      TargetFresh(s, keys, n - 1, m);
      assert keys[n - 1] != keys[m] && keys[n - 1] in s.registry && keys[m] in s.registry;
    }
  }

  lemma {:induction false} ClearedPrefix(s: State, keys: seq<string>, n: nat)
    requires Inv(s) && Lists(keys, s.registry) && n <= |keys|
    ensures ClearedKeys(s, keys, n)
         == State(s.peers - Targets(s, keys, n), s.registry, s.log + ClearNotes(s, keys, n), false)
  {
    hide Filtered;
    if n > 0 {
      ClearedPrefix(s, keys, n - 1);
      TargetFresh(s, keys, n - 1, n - 1);
      assert keys[n - 1] in s.registry;
      ClearedStep(s, keys, n);
    } else {
      assert s.peers - {} == s.peers && s.log + [] == s.log;
    }
  }

  lemma ClearedStep(s: State, keys: seq<string>, n: nat)
    requires Inv(s) && Lists(keys, s.registry) && 0 < n <= |keys|
    requires s.registry[keys[n - 1]] !in Targets(s, keys, n - 1)
    ensures ClearedOne(State(s.peers - Targets(s, keys, n - 1), s.registry, s.log + ClearNotes(s, keys, n - 1), false), keys[n - 1])
         == State(s.peers - Targets(s, keys, n), s.registry, s.log + ClearNotes(s, keys, n), false)
  {
    hide Filtered;
    var k := keys[n - 1];
    assert k in s.registry;
    var a := s.registry[k];
    var left, log := s.peers - Targets(s, keys, n - 1), s.log + ClearNotes(s, keys, n - 1);
    assert a in left && left[a].name == k;
    assert left[a := left[a].(open := false)] - {a} == s.peers - Targets(s, keys, n);
    assert log + [Closed(a)] + [Reported(k)] + [Freed(a)] == s.log + ClearNotes(s, keys, n);
  }

  lemma {:induction false} TargetsAll(s: State, keys: seq<string>, n: nat)
    requires n <= |keys| && forall k :: k in keys ==> k in s.registry
    ensures Targets(s, keys, n) == set i | 0 <= i < n :: s.registry[keys[i]]
  {
    if n > 0 { TargetsAll(s, keys, n - 1); }
  }

  /** How often a note was taken. */
  function Times(notes: seq<Note>, x: Note): nat {
    if notes == [] then 0 else Times(notes[..|notes| - 1], x) + if notes[|notes| - 1] == x then 1 else 0
  }

  lemma TimesOne(notes: seq<Note>, y: Note, x: Note)
    ensures Times(notes + [y], x) == Times(notes, x) + if y == x then 1 else 0
  {
    assert (notes + [y])[..|notes|] == notes;
  }

  lemma TimesThree(notes: seq<Note>, a: Note, b: Note, c: Note, x: Note)
    ensures Times(notes + [a, b, c], x)
         == Times(notes, x) + (if a == x then 1 else 0) + (if b == x then 1 else 0) + (if c == x then 1 else 0)
  {
    hide Times;
    assert notes + [a, b, c] == notes + [a] + [b] + [c];
    TimesOne(notes, a, x);
    TimesOne(notes + [a], b, x);
    TimesOne(notes + [a] + [b], c, x);
  }

  /** Each peer of the first n keys is closed and freed once, each of the keys reported once. */
  lemma {:induction false} NotesCount(s: State, keys: seq<string>, n: nat, a: Addr, k: string)
    requires Inv(s) && Lists(keys, s.registry) && n <= |keys|
    ensures var notes := ClearNotes(s, keys, n);
            && Times(notes, Closed(a)) == Times(notes, Freed(a)) == (if a in Targets(s, keys, n) then 1 else 0)
            && Times(notes, Reported(k)) == (if k in keys[..n] then 1 else 0)
  {
    hide Inv, Times;
    if n == 0 {
      NoTimes(Closed(a));
      NoTimes(Freed(a));
      NoTimes(Reported(k));
    } else {
      NotesCount(s, keys, n - 1, a, k);
      TargetFresh(s, keys, n - 1, n - 1);
      var b, notes := s.registry[keys[n - 1]], ClearNotes(s, keys, n - 1);
      TimesThree(notes, Closed(b), Reported(keys[n - 1]), Freed(b), Closed(a));
      TimesThree(notes, Closed(b), Reported(keys[n - 1]), Freed(b), Freed(a));
      TimesThree(notes, Closed(b), Reported(keys[n - 1]), Freed(b), Reported(k));
      KeyNew(keys, n);
      assert keys[..n] == keys[..n - 1] + [keys[n - 1]];
    }
  }

  lemma NoTimes(x: Note)
    ensures Times([], x) == 0
  {
  }

  lemma KeyNew(keys: seq<string>, n: nat)
    requires 0 < n <= |keys| && forall i, j :: 0 <= i < j < |keys| ==> keys[i] != keys[j]
    ensures keys[n - 1] !in keys[..n - 1]
  {
  }

  /** The registered peers. */
  function Registered(s: State): (r: set<Addr>)
    ensures r == s.registry.Values
  {
    set k | k in s.registry :: s.registry[k]
  }

  /**
   * Clearing all: exactly the registered peers are released, whatever the order of
   * the keys; the registry is empty and the other peers are as before. Each
   * registered peer is closed, reported under its name and freed once (ClearAllOnce).
   */
  lemma ClearAllExactly(s: State, order: seq<string>)
    requires Inv(s) && Enabled(s, ClearAll(order))
    ensures var t := Step(s, ClearAll(order));
            && t.registry == map[] && t.peers == s.peers - Registered(s) && Inv(t)
            && t.log == s.log + ClearNotes(s, order, |order|)
  {
    hide Filtered, Inv, ClearNotes, Targets, ClearedKeys;
    ClearedPrefix(s, order, |order|);
    TargetsAll(s, order, |order|);
    AllKeys(s, order);
    InvShrinks(s, Step(s, ClearAll(order)));
  }

  lemma ClearAllOnce(s: State, order: seq<string>, a: Addr, k: string)
    requires Inv(s) && Enabled(s, ClearAll(order))
    ensures var notes := ClearNotes(s, order, |order|);
            && Times(notes, Closed(a)) == Times(notes, Freed(a)) == (if a in Registered(s) then 1 else 0)
            && Times(notes, Reported(k)) == (if k in s.registry then 1 else 0)
  {
    hide Filtered, Inv, ClearNotes, Targets, Times;
    NotesCount(s, order, |order|, a, k);
    TargetsAll(s, order, |order|);
    AllKeys(s, order);
    assert order[..|order|] == order;
  }

  lemma AllKeys(s: State, order: seq<string>)
    requires Lists(order, s.registry)
    ensures (set i | 0 <= i < |order| :: s.registry[order[i]]) == Registered(s)
  {
    var x := set i | 0 <= i < |order| :: s.registry[order[i]];
    forall a | a in Registered(s)
      ensures a in x
    {
      var k :| k in s.registry && s.registry[k] == a;
      var i :| 0 <= i < |order| && order[i] == k;
    }
  }

  lemma InvShrinks(s: State, t: State)
    requires Inv(s) && t.registry == map[] && !t.faulty && forall a :: a in t.peers ==> a in s.peers && t.peers[a] == s.peers[a]
    ensures Inv(t)
  {
  }

  /** An event touches freed memory exactly when its peer is not allocated any more. */
  lemma StaleEventFaults(s: State, e: Event)
    requires Inv(s) && (e.Setup? || e.HangUp? || e.PollError?) && (e.Setup? ==> Modelled(e.ies))
    ensures Step(s, e).faulty <==> e.peer !in s.peers
  {
    hide Filtered, NewName, Reached, Modelled;
    if e.peer in s.peers && !e.Setup? { DroppedKept(s, e.peer); }
  }

  /**
   * Events of registered peers that were fetched together with a clearing, and are
   * handled after it, are such events.
   */
  lemma ClearingLeavesStale(s: State, order: seq<string>, e: Event)
    requires Inv(s) && Enabled(s, ClearAll(order))
    requires (e.Setup? || e.HangUp? || e.PollError?) && (e.Setup? ==> Modelled(e.ies)) && e.peer in s.peers
    ensures Step(Step(s, ClearAll(order)), e).faulty <==> e.peer in Registered(s)
  {
    hide Filtered, Inv, Step;
    ClearAllExactly(s, order);
    StaleEventFaults(Step(s, ClearAll(order)), e);
  }

  // ----- runs -----

  /** The invariant is kept by every event of a stable connection. */
  lemma StepKeeps(s: State, e: Event)
    requires Inv(s) && Enabled(s, e) && Stable(s, e)
    ensures Inv(Step(s, e))
  {
    hide Filtered, Inv, ClearedKeys, NewName, Reached, Modelled;
    match e
    case Setup(a, ies) =>
      StableKeeps(s, a, ies);
      SetupExactly(s, a, ies);
    case HangUp(a) => DroppedKept(s, a);
    case PollError(a) => DroppedKept(s, a);
    case Send(name, mtype, ok) => SendChangesNothing(s, name, mtype, ok);
    case ClearAll(order) => ClearAllExactly(s, order);
    case Accept(a, host, port) => AcceptKeeps(s, a, host, port);
    case Refuse =>
  }

  lemma StableKeeps(s: State, a: Addr, ies: seq<Ie>)
    requires Inv(s) && Enabled(s, Setup(a, ies)) && Stable(s, Setup(a, ies))
    ensures KeepsName(s, a, ies)
  {
    hide Filtered, NewName, Reached, Modelled;
    NewNameGood(ies);
  }

  lemma AcceptKeeps(s: State, a: Addr, host: string, port: string)
    requires Inv(s) && a !in s.peers
    ensures Inv(Step(s, Accept(a, host, port)))
  {
    hide Filtered;
    EmptyNotFiltered();
  }

  predicate AllModelled(es: seq<Event>) {
    forall i :: 0 <= i < |es| && es[i].Setup? ==> Modelled(es[i].ies)
  }

  /** The state after n events. */
  function After(es: seq<Event>, n: nat): State
    requires n <= |es| && AllModelled(es)
  {
    if n == 0 then INITIAL else Step(After(es, n - 1), es[n - 1])
  }

  /** A run: every event is possible when it comes. */
  ghost predicate Run(es: seq<Event>, n: nat)
    requires n <= |es| && AllModelled(es)
  {
    n > 0 ==> Run(es, n - 1) && Enabled(After(es, n - 1), es[n - 1])
  }

  /** A run in which identities are stable. */
  ghost predicate StableRun(es: seq<Event>, n: nat)
    requires n <= |es| && AllModelled(es)
  {
    n > 0 ==> StableRun(es, n - 1) && Enabled(After(es, n - 1), es[n - 1]) && Stable(After(es, n - 1), es[n - 1])
  }

  /** Safety over every run of stable connections, several claims on one name and any order of closing included. */
  lemma {:induction false} Safety(es: seq<Event>, n: nat)
    requires n <= |es| && AllModelled(es) && StableRun(es, n)
    ensures Inv(After(es, n))
    ensures var s := After(es, n);
            && !s.faulty
            && (forall k :: k in s.registry ==> k != "" && s.registry[k] in s.peers
                                                && s.peers[s.registry[k]].name == k && s.peers[s.registry[k]].open)
            && forall a :: a in s.peers ==> s.peers[a].open && !s.peers[a].connected
  {
    hide Inv, Step, Enabled, Stable;
    if n == 0 {
      InitialSafe();
    } else {
      Safety(es, n - 1);
      StepKeeps(After(es, n - 1), es[n - 1]);
    }
    InvMeans(After(es, n));
  }

  lemma InvMeans(s: State)
    requires Inv(s)
    ensures !s.faulty
    ensures forall k :: k in s.registry ==> k != "" && s.registry[k] in s.peers
                                            && s.peers[s.registry[k]].name == k && s.peers[s.registry[k]].open
    ensures forall a :: a in s.peers ==> s.peers[a].open && !s.peers[a].connected
  {
    hide Filtered;
  }

  lemma InitialSafe()
    ensures Inv(INITIAL)
  {
  }

  /** The name a peer announced last since it was accepted. */
  function Announced(es: seq<Event>, n: nat, a: Addr): string
    requires n <= |es| && AllModelled(es)
  {
    if n == 0 then ""
    else
      match es[n - 1]
      case Accept(b, _, _) => if a == b then "" else Announced(es, n - 1, a)
      case Setup(b, ies) => if a == b then NewName(ies) else Announced(es, n - 1, a)
      case _ => Announced(es, n - 1, a)
  }

  /** Who claimed a name last, unless a peer of that name was dropped since, or everything was cleared. */
  function Claimant(es: seq<Event>, n: nat, k: string): Option<Addr>
    requires n <= |es| && AllModelled(es)
  {
    if n == 0 then None
    else
      match es[n - 1]
      case Setup(a, ies) => if NewName(ies) == k then Some(a) else Claimant(es, n - 1, k)
      case HangUp(a) => if Announced(es, n - 1, a) == k then None else Claimant(es, n - 1, k)
      case PollError(a) => if Announced(es, n - 1, a) == k then None else Claimant(es, n - 1, k)
      case ClearAll(_) => None
      case _ => Claimant(es, n - 1, k)
  }

  lemma {:induction false} NamesAreAnnounced(es: seq<Event>, n: nat, a: Addr)
    requires n <= |es| && AllModelled(es) && StableRun(es, n) && a in After(es, n).peers
    ensures After(es, n).peers[a].name == Announced(es, n, a)
  {
    hide Filtered, Inv, NewName, ClearedKeys, Reached, Modelled;
    if n > 0 {
      var s, e := After(es, n - 1), es[n - 1];
      Safety(es, n - 1);
      match e {
        case HangUp(b) => DroppedKept(s, b);
        case PollError(b) => DroppedKept(s, b);
        case Send(name, mtype, ok) => SendChangesNothing(s, name, mtype, ok);
        case ClearAll(order) => ClearAllExactly(s, order);
        case _ =>
      }
      if a in s.peers { NamesAreAnnounced(es, n - 1, a); }
    }
  }

  /** A name maps to its last claimant, until any peer of that name is dropped or all are cleared. */
  lemma {:induction false} RegistryIsLastClaim(es: seq<Event>, n: nat, k: string)
    requires n <= |es| && AllModelled(es) && StableRun(es, n) && k != ""
    ensures var s := After(es, n); (if k in s.registry then Some(s.registry[k]) else None) == Claimant(es, n, k)
  {
    hide Filtered, Inv, NewName, ClearedKeys, Reached, Modelled;
    if n > 0 {
      var s, e := After(es, n - 1), es[n - 1];
      Safety(es, n - 1);
      RegistryIsLastClaim(es, n - 1, k);
      match e
      case HangUp(b) =>
        DroppedKept(s, b);
        NamesAreAnnounced(es, n - 1, b);
      case PollError(b) =>
        DroppedKept(s, b);
        NamesAreAnnounced(es, n - 1, b);
      case Send(name, mtype, ok) => SendChangesNothing(s, name, mtype, ok);
      case ClearAll(order) =>
      case Accept(b, host, port) =>
      case Setup(b, ies) => NewNameGood(ies);
      case Refuse =>
    }
  }

  // ----- what instability does -----

  predicate Identified(n: NodeId) {
    Fits(n) && n.NodeId?
  }

  /** A connection that announces an identity, then another or none (an empty list), and hangs up. */
  function Unstable(first: NodeId, later: seq<Ie>, a: Addr): seq<Event> {
    [Accept(a, "", ""), Setup(a, [Identity(first)]), Setup(a, later), HangUp(a),
     Send(if Identified(first) then Name(first) else "", "", true)]
  }

  lemma OneIdentity(n: NodeId)
    requires Identified(n)
    ensures Modelled([Identity(n)]) && Reached([Identity(n)]) == Some(n) && NewName([Identity(n)]) == Name(n)
  {
  }

  /** If a later setup gives another name or none, the first one keeps mapping to freed memory, which the next send touches. */
  lemma UnstableDangles(first: NodeId, later: seq<Ie>, a: Addr)
    requires Identified(first) && Modelled(later) && NewName(later) != Name(first)
    ensures var es := Unstable(first, later, a);
            AllModelled(es) && Run(es, 5) && After(es, 5).faulty
  {
    hide Filtered, Name, NewName, Reached, Modelled;
    var es, k, name := Unstable(first, later, a), Name(first), NewName(later);
    OneIdentity(first);
    var host := HostKey(Peer("", "", name, true, false));
    NeverFiltered(first);
    HostKeyFiltered(Peer("", "", name, true, false));
    UnfoldedRun(es);
    assert After(es, 1) == State(map[a := Peer("", "", "", true, false)], map[], [], false);
    assert After(es, 2) == State(map[a := Peer("", "", k, true, false)], map[k := a], [], false);
    var s3 := After(es, 3);
    assert s3.peers == map[a := Peer("", "", name, true, false)] && k in s3.registry && s3.registry[k] == a;
    var s4 := After(es, 4);
    assert k in s4.registry && s4.registry[k] == a && a !in s4.peers;
  }

  lemma UnfoldedRun(es: seq<Event>)
    requires |es| == 5 && AllModelled(es)
    ensures After(es, 0) == INITIAL && After(es, 1) == Step(INITIAL, es[0]) && After(es, 2) == Step(After(es, 1), es[1])
    ensures After(es, 3) == Step(After(es, 2), es[2]) && After(es, 4) == Step(After(es, 3), es[3])
    ensures After(es, 5) == Step(After(es, 4), es[4])
    ensures (&& Enabled(INITIAL, es[0]) && Enabled(After(es, 1), es[1]) && Enabled(After(es, 2), es[2])
             && Enabled(After(es, 3), es[3]) && Enabled(After(es, 4), es[4])) ==> Run(es, 5)
  {
    hide Step, Enabled;
    assert Run(es, 0);
    assert Enabled(INITIAL, es[0]) ==> Run(es, 1);
    assert Run(es, 2) <==> Run(es, 1) && Enabled(After(es, 1), es[1]);
    assert Run(es, 3) <==> Run(es, 2) && Enabled(After(es, 2), es[2]);
    assert Run(es, 4) <==> Run(es, 3) && Enabled(After(es, 3), es[3]);
  }

  // ----- two claims on one name -----

  /** Two peers announce one identity; the first hangs up, and then the second. */
  function TwoClaims(n: NodeId, a: Addr, b: Addr): (es: seq<Event>)
    requires Identified(n)
    ensures |es| == 6 && AllModelled(es)
  {
    hide Fits;
    [Accept(a, "x", "1"), Accept(b, "y", "2"), Setup(a, [Other, Identity(n)]), Setup(b, [Identity(n), Functions(true)]),
     HangUp(a), HangUp(b)]
  }

  function Claimed(host: string, port: string, n: NodeId): Peer
    requires Identified(n)
  {
    Peer(host, port, Name(n), true, false)
  }

  /**
   * Such a run is stable: the end of the first peer takes the name out of the
   * registry though the second one claimed it, and nothing is left after both ends.
   */
  lemma TwoClaimsRun(n: NodeId, a: Addr, b: Addr)
    requires Identified(n) && a != b
    ensures var es, name := TwoClaims(n, a, b), Name(n);
            && StableRun(es, 6)
            && After(es, 5) == State(map[b := Claimed("y", "2", n)], map[], [Reported(name), Closed(a), Freed(a)], false)
            && After(es, 6) == State(map[], map[], [Reported(name), Closed(a), Freed(a), Reported(name), Closed(b), Freed(b)], false)
  {
    hide *;
    var es := TwoClaims(n, a, b);
    ClaimEvents(n, a, b);
    TwoNamed(n, a, b);
    var t := After(es, 4);
    Safety(es, 4);
    DroppedKept(t, a);
    OneMore(es, 4);
    Possible(t, a, [], "", "", true);
    var name, q := Name(n), Claimed("y", "2", n);
    assert t.peers - {a} == map[b := q] && t.registry - {name} == map[];
    assert [] + [Reported(name), Closed(a), Freed(a)] == [Reported(name), Closed(a), Freed(a)];
    var u := After(es, 5);
    Safety(es, 5);
    DroppedKept(u, b);
    OneMore(es, 5);
    Possible(u, b, [], "", "", true);
    assert u.peers - {b} == map[] && u.registry - {name} == map[];
  }

  lemma ClaimEvents(n: NodeId, a: Addr, b: Addr)
    requires Identified(n)
    ensures TwoClaims(n, a, b)[4] == HangUp(a) && TwoClaims(n, a, b)[5] == HangUp(b)
    ensures n.NodeId? && ValidId(n) && Claimed("x", "1", n).name == Claimed("y", "2", n).name == Name(n)
  {
  }

  /** Events are possible for peers still allocated, an accepted peer gets new memory, a send is always possible. */
  lemma Possible(s: State, a: Addr, ies: seq<Ie>, host: string, port: string, ok: bool)
    ensures Enabled(s, Accept(a, host, port)) <==> a !in s.peers
    ensures Enabled(s, HangUp(a)) <==> a in s.peers
    ensures Enabled(s, PollError(a)) <==> a in s.peers
    ensures Enabled(s, Setup(a, ies)) <==> a in s.peers && Modelled(ies)
    ensures Enabled(s, Refuse) && Enabled(s, Send(host, port, ok))
    ensures a in s.peers ==> Stable(s, HangUp(a)) && Stable(s, PollError(a))
  {
    hide Modelled;
  }

  lemma OneMore(es: seq<Event>, k: nat)
    requires k < |es| && AllModelled(es)
    ensures After(es, k + 1) == Step(After(es, k), es[k])
    ensures StableRun(es, k + 1) <==> StableRun(es, k) && Enabled(After(es, k), es[k]) && Stable(After(es, k), es[k])
  {
    hide Step, Enabled, Stable;
  }

  /** After both claims the name maps to the second peer. */
  lemma TwoNamed(n: NodeId, a: Addr, b: Addr)
    requires Identified(n) && a != b
    ensures var es, p, q := TwoClaims(n, a, b), Claimed("x", "1", n), Claimed("y", "2", n);
            && StableRun(es, 4)
            && After(es, 3) == State(map[a := p, b := q.(name := "")], map[Name(n) := a], [], false)
            && After(es, 4) == State(map[a := p, b := q], map[Name(n) := b], [], false)
  {
    hide Name, Fits, NewName, Reached;
    var es := TwoClaims(n, a, b);
    OneMore(es, 0);
    OneMore(es, 1);
    OneMore(es, 2);
    OneMore(es, 3);
    SetupNames(After(es, 2), a, es[2].ies, 1, n);
    StableExactly(After(es, 2), a, es[2].ies);
    SetupNames(After(es, 3), b, es[3].ies, 0, n);
    StableExactly(After(es, 3), b, es[3].ies);
  }

  // ----- the program -----

  /** mapWrapper, without its lock. */
  class MapWrapper {
    var keyMap: map<string, Addr>

    constructor ()
      ensures keyMap == map[]
    {
      keyMap := map[];
    }

    method Find(key: string) returns (r: Option<Addr>)
      ensures r == if key in keyMap then Some(keyMap[key]) else None
    {
      r := if key in keyMap then Some(keyMap[key]) else None;
    }

    method SetKey(key: string, val: Addr)
      modifies this
      ensures keyMap == old(keyMap)[key := val]
    {
      keyMap := keyMap[key := val];
    }

    method Erase(key: string) returns (n: nat)
      modifies this
      ensures keyMap == old(keyMap) - {key} && n == if key in old(keyMap) then 1 else 0
    {
      n := if key in keyMap then 1 else 0;
      keyMap := keyMap - {key};
    }

    method Clear()
      modifies this
      ensures keyMap == map[]
    {
      keyMap := map[];
    }

    /** The keys in some order. */
    method GetKeys() returns (v: seq<string>)
      ensures Lists(v, keyMap)
      ensures (forall k :: k in v <==> k in keyMap) && forall i, j :: 0 <= i < j < |v| ==> v[i] != v[j]
    {
      var left := keyMap.Keys;
      v := [];
      while left != {}
        invariant left <= keyMap.Keys
        invariant forall k :: k in v <==> k in keyMap && k !in left
        invariant forall i, j :: 0 <= i < j < |v| ==> v[i] != v[j]
        decreases left
      {
        var k :| k in left;
        assert k !in v;
        v := v + [k];
        left := left - {k};
      }
    }
  }

  /** The E2 termination: its map, the C heap of peers, and what it has told the outside. */
  class Termination {
    const sctpMap: MapWrapper
    var heap: map<Addr, Peer>
    var log: seq<Note>

    ghost function Now(): State
      reads this, sctpMap
    {
      State(heap, sctpMap.keyMap, log, false)
    }

    constructor ()
      ensures Now() == INITIAL && fresh(sctpMap)
    {
      sctpMap := new MapWrapper();
      heap, log := map[], [];
    }

    method CloseFd(a: Addr)
      requires a in heap
      modifies this
      ensures Now() == Close(old(Now()), a)
    {
      heap := heap[a := heap[a].(open := false)];
      log := log + [Closed(a)];
    }

    method FreePeer(a: Addr)
      requires a in heap
      modifies this
      ensures Now() == Free(old(Now()), a)
    {
      heap := heap - {a};
      log := log + [Freed(a)];
    }

    /** A connection failure told to the xApps. */
    method ReportFailure(name: string)
      modifies this
      ensures Now() == old(Now()).(log := old(log) + [Reported(name)])
    {
      log := log + [Reported(name)];
    }

    method CleanHashEntry(a: Addr)
      requires a in heap
      modifies this, sctpMap
      ensures Now() == Clean(old(Now()), a)
    {
      var n := sctpMap.Erase(HostKey(heap[a]));
      n := sctpMap.Erase(heap[a].name);
      FreePeer(a);
    }

    /** The accepting step of the listener, at the address calloc gives. */
    method AcceptPeer(a: Addr, host: string, port: string)
      requires a !in heap
      modifies this
      ensures Now() == Step(old(Now()), Accept(a, host, port))
      ensures heap == old(heap)[a := Peer(host, port, "", true, false)]
      ensures sctpMap.keyMap == old(sctpMap.keyMap) && log == old(log)
    {
      heap := heap[a := Peer(host, port, "", true, false)];
    }

    /**
     * collectSetupAndServiceUpdate_RequestData. message is the name the peer had
     * before, which the receiving loop copied there; BuildRanName gives the new one.
     */
    method CollectSetup(a: Addr, ies: seq<Ie>) returns (rc: int)
      requires a in heap && Modelled(ies)
      modifies this, sctpMap
      ensures Now() == Step(old(Now()), Setup(a, ies))
      ensures rc == if exists i :: 0 <= i < |ies| && (ies[i] == Functions(false) || ies[i] == Identity(Nothing)) then -1 else 0
    {
      hide Name, Fits, Overlay;
      var message := heap[a].name;
      ghost var s, found := Now(), false;
      heap := heap[a := heap[a].(name := "")];
      assert ies[0..] == ies;
      for i := 0 to |ies|
        invariant a in heap
        invariant !found ==> Reached(ies[i..]) == Reached(ies) && Now() == Blank(s, a) && message == s.peers[a].name
        invariant found ==> Now() == Named(s, a, ies) && forall j :: i <= j < |ies| ==> !ies[j].Identity?
        invariant forall j :: 0 <= j < i ==> !BadIe(ies[j])
      {
        assert ies[i..][0] == ies[i] && ies[i..][1..] == ies[i + 1..];
        match ies[i]
        case Identity(node) =>
          ReachedNode(ies);
          if node.Nothing? {
            return -1;
          }
          heap := heap[a := heap[a].(name := Name(node))];
          message := Overlay(message, heap[a].name);
          sctpMap.SetKey(message, a);
          found := true;
        case Functions(ok) =>
          if !ok {
            return -1;
          }
        case Other =>
      }
      rc := 0;
    }

    /** The end of receiveDataFromSctp when the remote side has gone. */
    method HangUpPeer(a: Addr)
      requires a in heap
      modifies this, sctpMap
      ensures Now() == Step(old(Now()), HangUp(a))
    {
      ReportFailure(heap[a].name);
      CloseFd(a);
      CleanHashEntry(a);
    }

    /** handlepoll_error */
    method PollErrorPeer(a: Addr)
      requires a in heap
      modifies this, sctpMap
      ensures Now() == Step(old(Now()), PollError(a))
    {
      ReportFailure(heap[a].name);
      CloseFd(a);
      var n := sctpMap.Erase(heap[a].name);
      CleanHashEntry(a);
    }

    /** sendMessagetoCu and sendSctpMsg; ok tells whether the socket takes the message. */
    method SendMessageToCu(name: string, mtype: string, ok: bool) returns (rc: int)
      requires name in sctpMap.keyMap ==> sctpMap.keyMap[name] in heap
      requires MessageKey(name, mtype) !in sctpMap.keyMap
      modifies this, sctpMap
      ensures Now() == Step(old(Now()), Send(name, mtype, ok))
      ensures rc == if name in old(sctpMap.keyMap) && ok then 0 else -1
    {
      var found := sctpMap.Find(name);
      if found.None? {
        return -1;
      }
      var a := found.value;
      if !ok {
        if !heap[a].connected {
          return -1;
        }
        CleanHashEntry(a);
        log := log + [Closed(a)];
        var n := sctpMap.Erase(MessageKey(name, mtype));
        return -1;
      }
      rc := 0;
    }

    /** RIC_SCTP_CLEAR_ALL; v is the order in which the keys came. */
    method ClearAllPeers() returns (ghost v: seq<string>)
      requires Inv(Now())
      modifies this, sctpMap
      ensures Lists(v, old(sctpMap.keyMap)) && Now() == Step(old(Now()), ClearAll(v))
    {
      hide Inv, Filtered;
      ghost var s := Now();
      var keys := sctpMap.GetKeys();
      v := keys;
      for i := 0 to |keys|
        invariant sctpMap.keyMap == s.registry
        invariant Now() == ClearedKeys(s, keys, i)
      {
        ClearedPrefix(s, keys, i);
        KeyAlive(s, keys, i);
        if !Filtered(keys[i]) {
          var found := sctpMap.Find(keys[i]);
          if found.None? {
            continue;
          }
          var a := found.value;
          CloseFd(a);
          ReportFailure(heap[a].name);
          FreePeer(a);
        }
      }
      sctpMap.Clear();
    }
  }

  /** What makes the collecting loop fail. */
  predicate BadIe(e: Ie) {
    e == Functions(false) || e == Identity(Nothing)
  }

  function Blank(s: State, a: Addr): State
    requires a in s.peers
  {
    s.(peers := s.peers[a := s.peers[a].(name := "")])
  }

  /** The peer of the next key has not been freed yet. */
  lemma KeyAlive(s: State, keys: seq<string>, n: nat)
    requires Inv(s) && Lists(keys, s.registry) && n < |keys|
    ensures keys[n] in s.registry && s.registry[keys[n]] in s.peers - Targets(s, keys, n)
  {
    hide Filtered, Targets;
    assert keys[n] in keys;
    TargetFresh(s, keys, n, n);
  }

  lemma SendSafe(s: State, name: string, mtype: string)
    requires Inv(s)
    ensures MessageKey(name, mtype) !in s.registry && (name in s.registry ==> s.registry[name] in s.peers)
  {
    hide Filtered;
    MessageKeyFiltered(name, mtype);
  }

  /** One event of the listener: the invariant holds and no freed peer is touched. */
  method Listen(t: Termination, e: Event) returns (ghost done: Event)
    requires Inv(t.Now()) && Enabled(t.Now(), e) && Stable(t.Now(), e)
    modifies t, t.sctpMap
    ensures Enabled(old(t.Now()), done) && (!e.ClearAll? ==> done == e)
    ensures Inv(t.Now()) && t.Now() == Step(old(t.Now()), done)
  {
    hide Inv, Filtered, NewName, Reached;
    ghost var s := t.Now();
    done := e;
    match e {
      case Accept(a, host, port) => t.AcceptPeer(a, host, port);
      case Refuse =>
      case Setup(a, ies) => var rc := t.CollectSetup(a, ies);
      case HangUp(a) => t.HangUpPeer(a);
      case PollError(a) => t.PollErrorPeer(a);
      case Send(name, mtype, ok) =>
        SendSafe(s, name, mtype);
        var rc := t.SendMessageToCu(name, mtype, ok);
      case ClearAll(_) =>
        ghost var v := t.ClearAllPeers();
        done := ClearAll(v);
    }
    StepKeeps(s, done);
  }
}
