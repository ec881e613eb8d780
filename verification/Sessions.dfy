/** The table of the sessions of a process hook: a strictly sorted array with a count. */
module Sessions {
  import opened Words

  const MAX_SESSION: nat := 345
  const NAME_LENGTH: nat := 12
  const VTABLE_WORDS: nat := 0x10
  const DTOR: nat := 2             // the slot of the destructor

  type Name = s: seq<int> | |s| == NAME_LENGTH witness seq(NAME_LENGTH, _ => 0)

  datatype SessionInfo = SessionInfo(session: u32, name: Name)

  const EMPTY: SessionInfo := SessionInfo(0, seq(NAME_LENGTH, _ => 0))

  /** strncpy(name, 12): cut off, or filled up with zeros. (`name` are the characters before the terminator.) */
  function Copied(name: seq<int>): Name {
    seq(NAME_LENGTH, i requires 0 <= i < NAME_LENGTH => if i < |name| then name[i] else 0)
  }

  lemma CopiedIs(name: seq<int>)
    ensures |Copied(name)| == 12
    ensures if |name| >= 12 then Copied(name) == name[..12]
            else name <= Copied(name) && forall i :: |name| <= i < 12 ==> Copied(name)[i] == 0
  {
  }

  ghost predicate Sorted(l: seq<SessionInfo>) {
    forall i, j :: 0 <= i < j < |l| ==> l[i].session < l[j].session
  }

  /** The first slot whose session is not below `key`. */
  ghost predicate LowerBound(l: seq<SessionInfo>, key: u32, id: nat) {
    && id <= |l|
    && (forall i :: 0 <= i < id ==> l[i].session < key)
    && (forall i :: id <= i < |l| ==> l[i].session >= key)
  }

  ghost function ToMap(l: seq<SessionInfo>): map<u32, Name>
    requires Sorted(l)
  {
    map i | 0 <= i < |l| :: l[i].session := l[i].name
  }

  function Inserted(l: seq<SessionInfo>, id: nat, e: SessionInfo): seq<SessionInfo>
    requires id <= |l|
  {
    l[..id] + [e] + l[id..]
  }

  function Deleted(l: seq<SessionInfo>, id: nat): seq<SessionInfo>
    requires id < |l|
  {
    l[..id] + l[id + 1..]
  }

  lemma EntryInMap(l: seq<SessionInfo>, i: nat)
    requires Sorted(l) && i < |l|
    ensures l[i].session in ToMap(l) && ToMap(l)[l[i].session] == l[i].name
  {
  }

  lemma KeyInList(l: seq<SessionInfo>, k: u32) returns (i: nat)
    requires Sorted(l) && k in ToMap(l)
    ensures i < |l| && l[i].session == k && ToMap(l)[k] == l[i].name
  {
    i :| 0 <= i < |l| && l[i].session == k;
  }

  ghost predicate Has(l: seq<SessionInfo>, k: u32) {
    exists i :: 0 <= i < |l| && l[i].session == k
  }

  /** Equal entries make equal maps. */
  lemma SameMap(l: seq<SessionInfo>, m: map<u32, Name>)
    requires Sorted(l)
    requires forall i :: 0 <= i < |l| ==> l[i].session in m && m[l[i].session] == l[i].name
    requires forall k :: k in m ==> Has(l, k)
    ensures ToMap(l) == m
  {
    hide ToMap;
    forall k | k in ToMap(l)
      ensures k in m && m[k] == ToMap(l)[k]
    {
      var i := KeyInList(l, k);
    }
    forall k | k in m
      ensures k in ToMap(l)
    {
      var i :| 0 <= i < |l| && l[i].session == k;
      EntryInMap(l, i);
    }
  }

  lemma InsertedSorted(l: seq<SessionInfo>, id: nat, e: SessionInfo)
    requires Sorted(l) && LowerBound(l, e.session, id) && (id < |l| ==> l[id].session != e.session)
    ensures Sorted(Inserted(l, id, e)) && e.session !in ToMap(l)
  {
    hide ToMap;
    Absent(l, id, e.session);
    assert forall i :: id < i < |l| ==> l[id].session < l[i].session;
  }

  lemma InsertedAt(l: seq<SessionInfo>, id: nat, e: SessionInfo, i: nat)
    requires id <= |l| && i <= |l|
    ensures |Inserted(l, id, e)| == |l| + 1
              && Inserted(l, id, e)[i] == if i < id then l[i] else if i == id then e else l[i - 1]
    ensures i < |l| ==> Inserted(l, id, e)[if i < id then i else i + 1] == l[i]
  {
  }

  lemma InsertedMap(l: seq<SessionInfo>, id: nat, e: SessionInfo)
    requires Sorted(l) && LowerBound(l, e.session, id) && (id < |l| ==> l[id].session != e.session)
    ensures e.session !in ToMap(l) && Sorted(Inserted(l, id, e))
              && ToMap(Inserted(l, id, e)) == ToMap(l)[e.session := e.name]
  {
    var r, m := Inserted(l, id, e), ToMap(l)[e.session := e.name];
    InsertedSorted(l, id, e);
    assert id <= |l|;
    hide ToMap, Sorted, LowerBound, Inserted;
    InsertedAt(l, id, e, id);
    forall i | 0 <= i < |r|
      ensures r[i].session in m && m[r[i].session] == r[i].name
    {
      InsertedAt(l, id, e, i);
      if i != id { EntryInMap(l, if i < id then i else i - 1); }
    }
    forall k | k in m
      ensures Has(r, k)
    {
      if k != e.session {
        var i := KeyInList(l, k);
        InsertedAt(l, id, e, i);
      }
    }
    SameMap(r, m);
  }

  lemma Absent(l: seq<SessionInfo>, id: nat, key: u32)
    requires Sorted(l) && LowerBound(l, key, id) && (id < |l| ==> l[id].session != key)
    ensures key !in ToMap(l)
  {
    assert forall i :: id < i < |l| ==> l[id].session < l[i].session;
  }

  lemma DeletedMap(l: seq<SessionInfo>, id: nat)
    requires Sorted(l) && id < |l|
    ensures Sorted(Deleted(l, id)) && ToMap(Deleted(l, id)) == ToMap(l) - {l[id].session}
  {
    hide ToMap;
    var r, m := Deleted(l, id), ToMap(l) - {l[id].session};
    assert forall i :: 0 <= i < |r| ==> r[i] == if i < id then l[i] else l[i + 1];
    forall i | 0 <= i < |r|
      ensures r[i].session in m && m[r[i].session] == r[i].name
    {
      EntryInMap(l, if i < id then i else i + 1);
    }
    forall k | k in m
      ensures Has(r, k)
    {
      var i := KeyInList(l, k);
      assert r[if i < id then i else i - 1].session == k;
    }
    SameMap(r, m);
  }

  /** The loop of SessionInfo_Add: makes room at `id` among the first `n` entries. */
  method ShiftUp(infos: array<SessionInfo>, id: nat, n: nat)
    requires id <= n < infos.Length
    modifies infos
    ensures forall k :: 0 <= k < infos.Length && k != id ==>
              infos[k] == if id < k <= n then old(infos[k - 1]) else old(infos[k])
  {
    var i := n;
    while i > id && i != 0
      invariant id <= i <= n
      invariant forall k :: 0 <= k < infos.Length ==>
                infos[k] == if i < k <= n then old(infos[k - 1]) else old(infos[k])
    {
      infos[i] := infos[i - 1];
      i := i - 1;
    }
  }

  /** The loop of SessionInfo_Remove: closes the gap at `id` among the first `n` entries. */
  method ShiftDown(infos: array<SessionInfo>, id: nat, n: nat)
    requires id < n <= infos.Length
    modifies infos
    ensures forall k :: 0 <= k < infos.Length ==>
              infos[k] == if id <= k < n - 1 then old(infos[k + 1]) else old(infos[k])
  {
    var i := id;
    while i < n - 1
      invariant id <= i <= n - 1
      invariant forall k :: 0 <= k < infos.Length ==>
                infos[k] == if id <= k < i then old(infos[k + 1]) else old(infos[k])
    {
      infos[i] := infos[i + 1];
      i := i + 1;
    }
  }

  /** A gap made and filled is an insertion, one closed a deletion, in the list of the first `n` entries. */
  lemma GapFilled(was: seq<SessionInfo>, now: seq<SessionInfo>, id: nat, n: nat, e: SessionInfo)
    requires id <= n < |was| == |now|
    requires forall k :: 0 <= k < |was| ==> now[k] == if k == id then e else was[if id < k <= n then k - 1 else k]
    ensures now[..n + 1] == Inserted(was[..n], id, e)
  {
    var l := was[..n];
    assert |Inserted(l, id, e)| == n + 1;
    forall k | 0 <= k <= n
      ensures now[..n + 1][k] == Inserted(l, id, e)[k]
    {
      InsertedAt(l, id, e, k);
      assert now[..n + 1][k] == now[k];
      assert k != id ==> now[k] == was[if k < id then k else k - 1];
    }
  }

  lemma GapClosed(was: seq<SessionInfo>, now: seq<SessionInfo>, id: nat, n: nat)
    requires id < n <= |was| == |now|
    requires forall k :: 0 <= k < n - 1 ==> now[k] == was[if k < id then k else k + 1]
    ensures now[..n - 1] == Deleted(was[..n], id)
  {
    var l := was[..n];
    assert |Deleted(l, id)| == n - 1;
    forall k | 0 <= k < n - 1
      ensures now[..n - 1][k] == Deleted(l, id)[k]
    {
      assert now[..n - 1][k] == now[k] == was[if k < id then k else k + 1];
      assert Deleted(l, id)[k] == l[if k < id then k else k + 1];
    }
  }

  lemma Between(l: seq<SessionInfo>, key: u32, a: int, b: nat)
    requires Sorted(l) && -1 <= a && b == a + 1 <= |l|
    requires (a >= 0 ==> l[a].session < key) && (b < |l| ==> key <= l[b].session)
    ensures LowerBound(l, key, b)
  {
    assert forall i :: 0 <= i < a ==> l[i].session < l[a].session;
    assert forall i :: b < i < |l| ==> l[b].session < l[i].session;
  }

  lemma Exactly(l: seq<SessionInfo>, key: u32, m: nat)
    requires Sorted(l) && m < |l| && l[m].session == key
    ensures LowerBound(l, key, m)
  {
  }

  /** `sessionVtable` is the vtable that the kernel gives every session, `dtorHook` the address of
      KSession__dtor_hook. */
  class Table {
    const sessionVtable: seq<u32>
    const dtorHook: u32
    const sessionInfos: array<SessionInfo>
    const customSessionVtable: array<u32>
    var dtorOrig: u32
    var nbActiveSessions: nat
    var hooked: set<u32>    // the sessions whose vtable is customSessionVtable

    constructor (sessionVtable: seq<u32>, dtorHook: u32)
      requires |sessionVtable| == VTABLE_WORDS && dtorHook !in {0, sessionVtable[DTOR]}
      ensures Valid() && fresh(sessionInfos) && fresh(customSessionVtable) && List() == [] && hooked == {}
      ensures this.sessionVtable == sessionVtable && this.dtorHook == dtorHook
    {
      this.sessionVtable, this.dtorHook := sessionVtable, dtorHook;
      sessionInfos := new SessionInfo[MAX_SESSION](_ => EMPTY);
      customSessionVtable := new u32[VTABLE_WORDS](_ => 0);
      dtorOrig := 0;
      nbActiveSessions := 0;
      hooked := {};
    }

    ghost predicate Valid()
      reads this, sessionInfos, customSessionVtable
    {
      && sessionInfos.Length == MAX_SESSION && nbActiveSessions <= MAX_SESSION
      && Sorted(sessionInfos[..nbActiveSessions])
      && (forall i :: nbActiveSessions <= i < MAX_SESSION ==> sessionInfos[i] == EMPTY)
      && HookValid()
    }

    /** The custom vtable is not in use yet, or it is the sessions' own but for the destructor, which has been
        saved. */
    ghost predicate HookValid()
      reads `hooked, `dtorOrig, customSessionVtable
    {
      && |sessionVtable| == VTABLE_WORDS == customSessionVtable.Length && dtorHook !in {0, sessionVtable[DTOR]}
      && if customSessionVtable[DTOR] == 0 then hooked == {}
         else customSessionVtable[..] == sessionVtable[DTOR := dtorHook] && dtorOrig == sessionVtable[DTOR]
    }

    /** The vtable that a session has. */
    function VtableOf(session: u32): (v: seq<u32>)
      requires HookValid()
      reads `hooked, `dtorOrig, customSessionVtable
      ensures v == if session in hooked then sessionVtable[DTOR := dtorHook] else sessionVtable
    {
      if session in hooked then customSessionVtable[..] else sessionVtable
    }

    ghost function List(): seq<SessionInfo>
      requires sessionInfos.Length == MAX_SESSION && nbActiveSessions <= MAX_SESSION
      reads this, sessionInfos
    {
      sessionInfos[..nbActiveSessions]
    }

    ghost function Contents(): map<u32, Name>
      requires Valid()
      reads this, sessionInfos, customSessionVtable
    {
      ToMap(List())
    }

    /** The table lists the hooked sessions. */
    ghost predicate Tracks()
      requires Valid()
      reads this, sessionInfos, customSessionVtable
    {
      Contents().Keys == hooked
    }

    /** SessionInfo_FindClosestSlot: the lower bound, by bisection. */
    method FindClosestSlot(session: u32) returns (id: nat)
      requires Valid()
      ensures id <= nbActiveSessions && LowerBound(List(), session, id)
    {
      hide Sorted, LowerBound;
      ghost var l := List();
      if nbActiveSessions == 0 || session <= sessionInfos[0].session {
        Between(l, session, -1, 0);
        return 0;
      } else if session > sessionInfos[nbActiveSessions - 1].session {
        Between(l, session, nbActiveSessions - 1, nbActiveSessions);
        return nbActiveSessions;
      }
      var a, b := 0, nbActiveSessions - 1;
      while true
        invariant 0 <= a < b < nbActiveSessions
        invariant l[a].session < session <= l[b].session
        decreases b - a
      {
        var m := (a + b) / 2;
        assert sessionInfos[m] == l[m];
        if sessionInfos[m].session < session {
          a := m;
        } else if sessionInfos[m].session > session {
          b := m;
        } else {
          Exactly(l, session, m);
          return m;
        }
        if !(b - a > 1) { break; }
      }
      Between(l, session, a, b);
      return b;
    }

    /** SessionInfo_Lookup: the slot of the session, if its vtable is the hooked one. The code does not
        compare the session itself: for a session that is not in the table the answer is right if and
        only if no greater hooked one is the next in the table. */
    method Lookup(session: u32) returns (r: Option<nat>)
      requires Valid()
      ensures r.Some? ==> r.value < nbActiveSessions && sessionInfos[r.value].session in hooked
      ensures session in Contents() ==>
                if session in hooked then r.Some? && sessionInfos[r.value].session == session else r == None
      ensures session !in Contents() ==>
                (r == None <==> forall k :: k in Contents() && k > session && NextAfter(Contents(), session, k) ==>
                    k !in hooked)
      ensures Tracks() && session !in hooked ==> (r == None <==> forall k :: k in hooked ==> k < session)
    {
      var id := FindClosestSlot(session);
      SlotMeaning(List(), session, id);
      if id == nbActiveSessions {
        r := None;
      } else {
        r := if sessionInfos[id].session in hooked then Some(id) else None;
      }
    }

    /** SessionInfo_ChangeVtable: the first time, the custom vtable is made from that of the session. */
    method ChangeVtable(session: u32)
      requires HookValid()
      modifies `hooked, `dtorOrig, customSessionVtable
      ensures HookValid() && hooked == old(hooked) + {session}
      // all functions are the session's own but the destructor, and that is where the hook looks for it
      ensures VtableOf(session) == sessionVtable[2 := dtorHook] && dtorOrig == sessionVtable[2]
    {
      if customSessionVtable[DTOR] == 0 {
        var vtable := VtableOf(session);
        CopyInto(customSessionVtable, 0, vtable);
        dtorOrig := vtable[DTOR];
        customSessionVtable[DTOR] := dtorHook;
      }
      hooked := hooked + {session};
    }

    /** SessionInfo_Add: the session is hooked, and a new one is entered under its name, unless the table is
        full; one that is there already keeps its name. */
    method Add(session: u32, name: seq<int>)
      requires Valid()
      modifies `nbActiveSessions, `hooked, `dtorOrig, sessionInfos, customSessionVtable
      ensures Valid() && hooked == old(hooked) + {session}
      ensures Contents() == if old(nbActiveSessions) == 345 || session in old(Contents()) then old(Contents())
                            else old(Contents())[session := Copied(name)]
      ensures nbActiveSessions == old(nbActiveSessions)
                                  + if session in old(Contents()) || old(nbActiveSessions) == 345 then 0 else 1
    {
      hide ToMap, Copied, Sorted, LowerBound, Inserted, Table.HookValid;
      ChangeVtable(session);
      if nbActiveSessions == MAX_SESSION { return; }
      var id := FindClosestSlot(session);
      ghost var l := List();
      SlotMeaning(l, session, id);
      if id != nbActiveSessions && sessionInfos[id].session == session { return; }
      InsertedMap(l, id, SessionInfo(session, Copied(name)));
      ghost var was := sessionInfos[..];
      ShiftUp(sessionInfos, id, nbActiveSessions);
      nbActiveSessions := nbActiveSessions + 1;
      sessionInfos[id] := SessionInfo(session, Copied(name));
      GapFilled(was, sessionInfos[..], id, |l|, SessionInfo(session, Copied(name)));
      assert was[..|l|] == l && sessionInfos[..][..|l| + 1] == List();
    }

    /** SessionInfo_Remove. The code compares nothing either, and does nothing when the table is full: it
        removes the next session in the table, which is the given one if that is there. */
    method Remove(session: u32)
      requires Valid()
      modifies `nbActiveSessions, sessionInfos
      ensures Valid()
      ensures old(nbActiveSessions) == 345 ==> nbActiveSessions == 345 && Contents() == old(Contents())
      ensures old(nbActiveSessions) < 345 ==>
                forall k :: k in Contents() <==> k in old(Contents()) && !NextFrom(old(Contents()), session, k)
      ensures forall k :: k in Contents() ==> Contents()[k] == old(Contents())[k]
      // exactly when that is what it should do
      ensures Contents() == old(Contents()) - {session} <==>
                if session in old(Contents()) then old(nbActiveSessions) < 345
                else old(nbActiveSessions) == 345 || forall k :: k in old(Contents()) ==> k < session
    {
      hide ToMap, NextFrom, Sorted, LowerBound, Deleted, Table.HookValid;
      ghost var l := List();
      if nbActiveSessions == MAX_SESSION {
        RemoveNothing(ToMap(l), session);
        return;
      }
      var id := FindClosestSlot(session);
      SlotMeaning(l, session, id);
      RemoveNothing(ToMap(l), session);
      if id == nbActiveSessions { return; }
      DeletedMap(l, id);
      RemoveOne(ToMap(l), session, l[id].session);
      ghost var was := sessionInfos[..];
      ShiftDown(sessionInfos, id, nbActiveSessions);
      nbActiveSessions := nbActiveSessions - 1;
      sessionInfos[nbActiveSessions] := EMPTY;
      GapClosed(was, sessionInfos[..], id, |l|);
      assert was[..|l|] == l && sessionInfos[..][..|l| - 1] == List();
      assert l[id].session in ToMap(l);
    }

    /** A session is opened (SessionInfo_Add) or destroyed: that runs the destructor in its vtable, and if that is
        KSession__dtor_hook, the original one (`ran`) and SessionInfo_Remove. A table that lists the hooked
        sessions goes on doing so, under their names, exactly if it was not full or the event changes nothing. */
    method Handle(e: Event) returns (ran: u32)
      requires Valid()
      modifies `nbActiveSessions, `hooked, `dtorOrig, sessionInfos, customSessionVtable
      ensures Valid()
      ensures old(Tracks()) ==> (Tracks() && Contents() == Next(old(Contents()), e) <==> Fits(old(Contents()), e))
      ensures e.Destroyed? ==> ran == sessionVtable[2]
    {
      hide ToMap, Copied, NextFrom, Sorted;
      CountKeys(List());
      ran := 0;
      match e {
        case Opened(session, name) => Add(session, name);
        case Destroyed(session) =>
          ran := VtableOf(session)[DTOR];
          if ran == dtorHook {
            ran := dtorOrig;
            Remove(session);
            hooked := hooked - {session};
          } else {
            RemoveNothing(Contents(), session);
          }
      }
    }

    /** Any run of them. */
    method Run(events: seq<Event>)
      requires Valid() && Tracks()
      modifies `nbActiveSessions, `hooked, `dtorOrig, sessionInfos, customSessionVtable
      ensures Valid()
      ensures AllFit(old(Contents()), events) ==> Tracks() && Contents() == After(old(Contents()), events)
    {
      hide ToMap, Next, Fits;
      ghost var m := Contents();
      for i := 0 to |events|
        invariant Valid()
        invariant AllFit(m, events[..i]) ==> Tracks() && Contents() == After(m, events[..i])
      {
        assert events[..i + 1][..i] == events[..i];
        var _ := Handle(events[i]);
      }
      assert events[..|events|] == events;
    }
  }

  datatype Event = Opened(session: u32, name: seq<int>) | Destroyed(session: u32)

  /** The names of the live sessions after an event. */
  function Next(m: map<u32, Name>, e: Event): map<u32, Name> {
    match e
    case Opened(session, name) => if session in m then m else m[session := Copied(name)]
    case Destroyed(session) => m - {session}
  }

  /** The table is not full, or the event changes nothing. */
  ghost predicate Fits(m: map<u32, Name>, e: Event) {
    |m| < 345 || (e.Opened? <==> e.session in m)
  }

  ghost function After(m: map<u32, Name>, events: seq<Event>): map<u32, Name> {
    if events == [] then m else Next(After(m, events[..|events| - 1]), events[|events| - 1])
  }

  ghost predicate AllFit(m: map<u32, Name>, events: seq<Event>) {
    events == []
        || (var before := events[..|events| - 1]; AllFit(m, before) && Fits(After(m, before), events[|before|]))
  }

  lemma {:induction false} CountKeys(l: seq<SessionInfo>)
    requires Sorted(l)
    ensures |ToMap(l)| == |l|
  {
    if l != [] {
      hide ToMap;
      var n := |l| - 1;
      DeletedMap(l, n);
      assert Deleted(l, n) == l[..n];
      CountKeys(l[..n]);
      EntryInMap(l, n);
    } else {
      assert ToMap(l) == map[];
    }
  }

  lemma RemoveNothing(m: map<u32, Name>, key: u32)
    ensures m == m - {key} <==> key !in m
  {
    assert key in m ==> key !in m - {key};
    if key !in m {
      assert m == m - {key};
    }
  }

  lemma RemoveOne(m: map<u32, Name>, key: u32, k: u32)
    requires NextFrom(m, key, k)
    ensures forall j :: j in m - {k} <==> j in m && !NextFrom(m, key, j)
    ensures m - {k} == m - {key} <==> key in m || forall j :: j in m ==> j < key
    ensures key in m ==> k == key
  {
    assert k != key ==> k !in m - {k} && k in m - {key};
  }

  /** `k` is the least key that is not below `key`. */
  ghost predicate NextFrom(m: map<u32, Name>, key: u32, k: u32) {
    k in m && k >= key && forall j :: j in m && j >= key ==> j >= k
  }

  /** `k` is the least key above `key`. */
  ghost predicate NextAfter(m: map<u32, Name>, key: u32, k: u32) {
    k in m && k > key && forall j :: j in m && j > key ==> j >= k
  }

  lemma SlotMeaning(l: seq<SessionInfo>, key: u32, id: nat)
    requires Sorted(l) && LowerBound(l, key, id)
    ensures key in ToMap(l) <==> id < |l| && l[id].session == key
    ensures id < |l| ==> NextFrom(ToMap(l), key, l[id].session)
    ensures forall k :: k in ToMap(l) && NextFrom(ToMap(l), key, k) ==> id < |l| && k == l[id].session
    ensures id == |l| ==> forall k :: k in ToMap(l) ==> k < key
  {
    if id < |l| {
      assert l[id].session in ToMap(l);
    }
  }
}
