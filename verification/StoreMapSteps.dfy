/**
 * Adding, removing and clearing as they change the two maps of the store, one map access at a time, in any
 * interleaving of any number of threads. Only the keys matter here: which capability is stored under a key
 * makes no difference to any of these steps. Ids do not wrap.
 */
module StoreMapSteps {
  import opened Requests

  type Key = (PluginId, nat)

  /** What a thread has still to do. A clear that found a list holds it for reading while it is `Clearing`. */
  datatype Call =
    | Checking(key: Key)                          // has to see whether the plugin has a list
    | Creating(key: Key)                          // saw none, has to insert an empty one
    | Listing(key: Key)                           // has to put the id into the list
    | Removing(key: Key)
    | Unlisting(key: Key)
    | Clearing(plugin: PluginId, todo: set<nat>)
    | Dropping(plugin: PluginId)                  // has to drop the list

  datatype Maps = Maps(entries: set<Key>, lists: map<PluginId, set<nat>>, calls: map<nat, Call>, nextId: nat)

  datatype Micro =
    | AddEntry(thread: nat, plugin: PluginId)
    | AddCheck(thread: nat)
    | AddCreate(thread: nat)
    | AddListing(thread: nat)
    | RemoveFound(thread: nat, key: Key)
    | RemoveEntry(thread: nat)
    | RemoveListing(thread: nat)
    | ClearFound(thread: nat, plugin: PluginId)
    | ClearEntry(thread: nat, id: nat)
    | ClearRelease(thread: nat)
    | ClearListing(thread: nat)

  const EMPTY := Maps({}, map[], map[], 1)

  predicate InList(s: Maps, k: Key) {
    k.0 in s.lists && k.1 in s.lists[k.0]
  }

  /** Some clear holds the plugin's list, so that nobody can write to it. */
  predicate Held(s: Maps, p: PluginId) {
    exists t :: t in s.calls && s.calls[t].Clearing? && s.calls[t].plugin == p
  }

  /** What a thread at `call` does with its step; a step that it is not at, or has to wait for, changes nothing. */
  function Next(s: Maps, e: Micro): Maps {
    var t := e.thread;
    if t !in s.calls then Start(s, e) else
      match (e, s.calls[t])
      case (AddCheck(_), Checking(k)) =>
        s.(calls := s.calls[t := if k.0 in s.lists then Listing(k) else Creating(k)])
      case (AddCreate(_), Creating(k)) =>
        if Held(s, k.0) then s else s.(lists := s.lists[k.0 := {}], calls := s.calls[t := Listing(k)])
      case (AddListing(_), Listing(k)) =>
        if k.0 !in s.lists then s.(calls := s.calls - {t}) // the thread panics
        else if Held(s, k.0) then s
        else s.(lists := s.lists[k.0 := s.lists[k.0] + {k.1}], calls := s.calls - {t})
      case (RemoveEntry(_), Removing(k)) =>
        s.(entries := s.entries - {k}, calls := s.calls[t := Unlisting(k)])
      case (RemoveListing(_), Unlisting(k)) =>
        if Held(s, k.0) then s else
          s.(lists := if k.0 in s.lists then s.lists[k.0 := s.lists[k.0] - {k.1}] else s.lists,
             calls := s.calls - {t})
      case (ClearEntry(_, id), Clearing(p, todo)) =>
        if id !in todo then s else
          s.(entries := s.entries - {(p, id)}, calls := s.calls[t := Clearing(p, todo - {id})])
      case (ClearRelease(_), Clearing(p, todo)) =>
        if todo == {} then s.(calls := s.calls[t := Dropping(p)]) else s
      case (ClearListing(_), Dropping(p)) =>
        if Held(s, p) then s else s.(lists := s.lists - {p}, calls := s.calls - {t})
      case _ => s
  }

  /** The first access of a call. */
  function Start(s: Maps, e: Micro): Maps
    requires e.thread !in s.calls
  {
    match e
    case AddEntry(t, p) =>
      var k := (p, s.nextId);
      s.(entries := s.entries + {k}, calls := s.calls[t := Checking(k)], nextId := s.nextId + 1)
    case RemoveFound(t, k) =>
      if k in s.entries then s.(calls := s.calls[t := Removing(k)]) else s
    case ClearFound(t, p) =>
      s.(calls := s.calls[t := if p in s.lists then Clearing(p, s.lists[p]) else Dropping(p)])
    case _ => s
  }

  /** `ss` are the states before, between and after the steps. */
  ghost predicate IsRun(es: seq<Micro>, ss: seq<Maps>) {
    |ss| == |es| + 1 && ss[0] == EMPTY && forall i :: 0 <= i < |es| ==> ss[i + 1] == Next(ss[i], es[i])
  }

  predicate Has(s: Maps, t: nat, c: Call) {
    t in s.calls && s.calls[t] == c
  }

  /** The call is an add of the key that has not listed it yet. */
  predicate Adds(c: Call, k: Key) {
    c == Checking(k) || c == Creating(k) || c == Listing(k)
  }

  // ----- what every state keeps

  ghost predicate KnownKeys(s: Maps) {
    && (forall k: Key :: k in s.entries || InList(s, k) ==> k.1 < s.nextId)
    && (forall t :: t in s.calls && !s.calls[t].Clearing? && !s.calls[t].Dropping? ==> s.calls[t].key.1 < s.nextId)
  }

  ghost predicate OneAdder(s: Maps) {
    && (forall t, u, k: Key :: t in s.calls && u in s.calls && Adds(s.calls[t], k) && Adds(s.calls[u], k) ==> t == u)
    && (forall t, k: Key :: t in s.calls && Adds(s.calls[t], k) ==> !InList(s, k))
  }

  ghost predicate UnlistsGone(s: Maps) {
    forall t :: t in s.calls && s.calls[t].Unlisting? ==> s.calls[t].key !in s.entries
  }

  ghost predicate ClearsSettled(s: Maps) {
    forall t, id :: t in s.calls && s.calls[t].Clearing? && id in s.calls[t].todo ==>
      Settled(s, (s.calls[t].plugin, id))
  }

  /** A clear that holds the list has removed the listed capabilities that it need not remove any more. */
  ghost predicate ClearsKnown(s: Maps) {
    forall t, k: Key :: t in s.calls && s.calls[t].Clearing? && s.calls[t].plugin == k.0 && InList(s, k) ==>
      k.1 in s.calls[t].todo || k !in s.entries
  }

  ghost predicate Inv(s: Maps) {
    KnownKeys(s) && OneAdder(s) && UnlistsGone(s) && ClearsSettled(s) && ClearsKnown(s)
  }

  /** The key will not be listed any more. */
  ghost predicate Settled(s: Maps, k: Key) {
    k.1 < s.nextId && forall t :: t in s.calls ==> !Adds(s.calls[t], k)
  }

  ghost predicate Gone(s: Maps, k: Key) {
    k.1 < s.nextId && k !in s.entries
  }

  lemma NextSettled(s: Maps, e: Micro, k: Key)
    ensures Settled(s, k) ==> Settled(Next(s, e), k)
    ensures Gone(s, k) ==> Gone(Next(s, e), k)
    ensures Settled(s, k) && !InList(s, k) ==> !InList(Next(s, e), k)
  {
  }

  lemma NextKnown(s: Maps, e: Micro)
    requires KnownKeys(s)
    ensures KnownKeys(Next(s, e))
  {
  }

  lemma NextGone(s: Maps, e: Micro)
    requires KnownKeys(s) && UnlistsGone(s)
    ensures UnlistsGone(Next(s, e))
  {
  }

  /** An add of a key goes on with that key, unless it starts with a new one. */
  lemma AddsBefore(s: Maps, e: Micro, t: nat, k: Key)
    requires KnownKeys(s) && t in Next(s, e).calls && Adds(Next(s, e).calls[t], k)
    ensures if t in s.calls then Adds(s.calls[t], k) && k.1 < s.nextId
            else e == AddEntry(t, k.0) && k.1 == s.nextId
  {
  }

  lemma NextAdder(s: Maps, e: Micro)
    requires KnownKeys(s) && OneAdder(s)
    ensures OneAdder(Next(s, e))
  {
    var s' := Next(s, e);
    forall t, u, k: Key | t in s'.calls && u in s'.calls && Adds(s'.calls[t], k) && Adds(s'.calls[u], k)
      ensures t == u
    {
      AddsBefore(s, e, t, k);
      AddsBefore(s, e, u, k);
    }
    forall t, k: Key | t in s'.calls && Adds(s'.calls[t], k)
      ensures !InList(s', k)
    {
      AddsBefore(s, e, t, k);
      if t in s.calls && InList(s', k) {
        ListedBy(s, e, k);
      }
    }
  }

  /** A key gets into a list by the one step of its add. */
  lemma ListedBy(s: Maps, e: Micro, k: Key)
    requires !InList(s, k) && InList(Next(s, e), k)
    ensures e.AddListing? && Has(s, e.thread, Listing(k)) && k.0 in s.lists && !Held(s, k.0)
    ensures Next(s, e).calls == s.calls - {e.thread}
  {
  }

  lemma NextClears(s: Maps, e: Micro)
    requires KnownKeys(s) && OneAdder(s) && ClearsSettled(s)
    ensures ClearsSettled(Next(s, e))
  {
    var s' := Next(s, e);
    forall t, id | t in s'.calls && s'.calls[t].Clearing? && id in s'.calls[t].todo
      ensures Settled(s', (s'.calls[t].plugin, id))
    {
      var k := (s'.calls[t].plugin, id);
      if t in s.calls {
        assert id in s.calls[t].todo;
      } else {
        assert InList(s, k);
      }
      NextSettled(s, e, k);
    }
  }

  lemma NextCleared(s: Maps, e: Micro)
    requires KnownKeys(s) && ClearsKnown(s)
    ensures ClearsKnown(Next(s, e))
  {
    var s' := Next(s, e);
    forall t, k: Key | t in s'.calls && s'.calls[t].Clearing? && s'.calls[t].plugin == k.0 && InList(s', k)
      ensures k.1 in s'.calls[t].todo || k !in s'.entries
    {
      if !InList(s, k) {
        ListedBy(s, e, k);
      }
    }
  }

  lemma {:induction false} InvAt(es: seq<Micro>, ss: seq<Maps>, n: nat)
    requires IsRun(es, ss) && n <= |es|
    ensures Inv(ss[n])
  {
    if n > 0 {
      InvAt(es, ss, n - 1);
      NextKnown(ss[n - 1], es[n - 1]);
      NextGone(ss[n - 1], es[n - 1]);
      NextAdder(ss[n - 1], es[n - 1]);
      NextClears(ss[n - 1], es[n - 1]);
      NextCleared(ss[n - 1], es[n - 1]);
    }
  }

  lemma {:induction false} StaysSettled(es: seq<Micro>, ss: seq<Maps>, m: nat, n: nat, k: Key)
    requires IsRun(es, ss) && m <= n <= |es|
    ensures Settled(ss[m], k) ==> Settled(ss[n], k)
    ensures Gone(ss[m], k) ==> Gone(ss[n], k)
    ensures Settled(ss[m], k) && !InList(ss[m], k) ==> !InList(ss[n], k)
    decreases n
  {
    if m < n {
      StaysSettled(es, ss, m, n - 1, k);
      NextSettled(ss[n - 1], es[n - 1], k);
    }
  }

  // ----- what goes wrong

  /** The step is the one that puts the key into its plugin's list. */
  ghost predicate Lists(es: seq<Micro>, ss: seq<Maps>, j: nat, k: Key)
    requires IsRun(es, ss)
  {
    && j < |es| && es[j].AddListing? && Has(ss[j], es[j].thread, Listing(k))
    && k.0 in ss[j].lists && !Held(ss[j], k.0)
  }

  /** The add finds no list, although it saw or made one: it panics. */
  ghost predicate Panics(es: seq<Micro>, ss: seq<Maps>, j: nat, k: Key)
    requires IsRun(es, ss)
  {
    j < |es| && es[j].AddListing? && Has(ss[j], es[j].thread, Listing(k)) && k.0 !in ss[j].lists
  }

  /** The thread stays at its call from state `j` to state `i`. */
  ghost predicate Waits(ss: seq<Maps>, j: nat, i: nat, t: nat, c: Call)
    requires i < |ss|
  {
    forall m :: j <= m <= i ==> Has(ss[m], t, c)
  }

  /** The key is listed while a clear of its plugin is between its last removal and its end. */
  ghost predicate Dropped(es: seq<Micro>, ss: seq<Maps>, j: nat, i: nat, k: Key)
    requires IsRun(es, ss)
  {
    && j < i < |es| && Lists(es, ss, j, k)
    && es[i].ClearListing? && Waits(ss, j, i, es[i].thread, Dropping(k.0)) && !Held(ss[i], k.0)
  }

  /** The key is listed while another add for its plugin is between seeing no list and inserting an empty one. */
  ghost predicate Replaced(es: seq<Micro>, ss: seq<Maps>, j: nat, i: nat, other: Key, k: Key)
    requires IsRun(es, ss)
  {
    && j < i < |es| && Lists(es, ss, j, k) && other.0 == k.0
    && es[i].AddCreate? && Waits(ss, j, i, es[i].thread, Creating(other)) && !Held(ss[i], k.0)
  }

  /** By state `n` the listing of the key was lost, or never came. */
  ghost predicate Lost(es: seq<Micro>, ss: seq<Maps>, n: nat, k: Key)
    requires IsRun(es, ss)
  {
    || (exists j: nat :: j < n && Panics(es, ss, j, k))
    || (exists j: nat, i: nat :: i < n && Dropped(es, ss, j, i, k))
    || (exists j: nat, i: nat, other: Key :: i < n && Replaced(es, ss, j, i, other, k))
  }

  ghost predicate Unlists(es: seq<Micro>, ss: seq<Maps>, j: nat, k: Key)
    requires IsRun(es, ss)
  {
    j < |es| && es[j].RemoveListing? && Has(ss[j], es[j].thread, Unlisting(k)) && !Held(ss[j], k.0)
  }

  /** The key is unlisted before it is listed: it was removed before its add returned the id. */
  ghost predicate RemovedEarly(es: seq<Micro>, ss: seq<Maps>, n: nat, k: Key)
    requires IsRun(es, ss)
  {
    exists i: nat, j: nat :: i < j < n && Unlists(es, ss, i, k) && Lists(es, ss, j, k)
  }

  // ----- entries that are not listed

  /** A key that is listed and stored while a clear has only to drop the list was listed while it was there. */
  lemma {:induction false} ListedWhileDropping(es: seq<Micro>, ss: seq<Maps>, n: nat, t: nat, k: Key) returns (j: nat)
    requires IsRun(es, ss) && n <= |es| && Has(ss[n], t, Dropping(k.0)) && InList(ss[n], k) && k in ss[n].entries
    ensures j < n && Lists(es, ss, j, k) && Waits(ss, j, n, t, Dropping(k.0))
  {
    var s, e := ss[n - 1], es[n - 1];
    InvAt(es, ss, n - 1);
    if InList(s, k) {
      j := ListedWhileDropping(es, ss, n - 1, t, k);
    } else {
      ListedBy(s, e, k);
      j := n - 1;
    }
  }

  /** The same for an add that has seen no list. */
  lemma {:induction false} ListedWhileCreating(es: seq<Micro>, ss: seq<Maps>, n: nat, t: nat, other: Key, k: Key)
    returns (j: nat)
    requires IsRun(es, ss) && n <= |es| && Has(ss[n], t, Creating(other)) && other.0 == k.0 && InList(ss[n], k)
    ensures j < n && Lists(es, ss, j, k) && Waits(ss, j, n, t, Creating(other))
  {
    var s, e := ss[n - 1], es[n - 1];
    if InList(s, k) {
      j := ListedWhileCreating(es, ss, n - 1, t, other, k);
    } else {
      ListedBy(s, e, k);
      j := n - 1;
    }
  }

  /** Only these three steps take a key out of its list. */
  lemma UnlistedBy(s: Maps, e: Micro, k: Key)
    requires InList(s, k) && !InList(Next(s, e), k)
    ensures e.thread in s.calls && !Held(s, k.0)
    ensures var c := s.calls[e.thread];
            || (e.RemoveListing? && c == Unlisting(k))
            || (e.ClearListing? && c == Dropping(k.0))
            || (e.AddCreate? && c.Creating? && c.key.0 == k.0)
  {
  }

  lemma ListingLost(es: seq<Micro>, ss: seq<Maps>, n: nat, k: Key)
    requires IsRun(es, ss) && n < |es| && k in ss[n + 1].entries && InList(ss[n], k) && !InList(ss[n + 1], k)
    ensures Lost(es, ss, n + 1, k)
  {
    InvAt(es, ss, n);
    var t := es[n].thread;
    UnlistedBy(ss[n], es[n], k);
    if es[n].ClearListing? {
      var j := ListedWhileDropping(es, ss, n, t, k);
      assert Dropped(es, ss, j, n, k);
    } else {
      var other := ss[n].calls[t].key;
      var j := ListedWhileCreating(es, ss, n, t, other, k);
      assert Replaced(es, ss, j, n, other, k);
    }
  }

  ghost predicate BeingAdded(s: Maps, k: Key) {
    exists t :: t in s.calls && Adds(s.calls[t], k)
  }

  /** The step of the add of a key: it goes on, lists the key, or panics. */
  lemma AddGoesOn(es: seq<Micro>, ss: seq<Maps>, n: nat, k: Key)
    requires IsRun(es, ss) && n < |es| && BeingAdded(ss[n], k)
    ensures BeingAdded(ss[n + 1], k) || InList(ss[n + 1], k) || Panics(es, ss, n, k)
  {
    var t :| t in ss[n].calls && Adds(ss[n].calls[t], k);
    assert Next(ss[n], es[n]) == ss[n + 1];
    if t in ss[n + 1].calls {
      assert Adds(ss[n + 1].calls[t], k);
    }
  }

  lemma {:induction false} EntriesTold(es: seq<Micro>, ss: seq<Maps>, n: nat, k: Key)
    requires IsRun(es, ss) && n <= |es| && k in ss[n].entries
    ensures InList(ss[n], k) || BeingAdded(ss[n], k) || Lost(es, ss, n, k)
  {
    var s, e := ss[n - 1], es[n - 1];
    if k !in s.entries {
      assert Adds(ss[n].calls[e.thread], k);
    } else {
      EntriesTold(es, ss, n - 1, k);
      if InList(s, k) {
        if !InList(ss[n], k) {
          ListingLost(es, ss, n - 1, k);
        }
      } else if BeingAdded(s, k) {
        AddGoesOn(es, ss, n - 1, k);
      }
    }
  }

  lemma LostForGood(es: seq<Micro>, ss: seq<Maps>, i: nat, k: Key)
    requires IsRun(es, ss) && i < |es| && Settled(ss[i + 1], k) && !InList(ss[i + 1], k)
    ensures !InList(ss[|es|], k)
  {
    StaysSettled(es, ss, i + 1, |es|, k);
  }

  lemma ListedSettles(es: seq<Micro>, ss: seq<Maps>, j: nat, k: Key)
    requires IsRun(es, ss) && (Lists(es, ss, j, k) || Panics(es, ss, j, k))
    ensures Settled(ss[j + 1], k) && (Panics(es, ss, j, k) ==> !InList(ss[j + 1], k))
  {
    InvAt(es, ss, j);
    assert ss[j + 1] == Next(ss[j], es[j]);
  }

  lemma DroppedIsLost(es: seq<Micro>, ss: seq<Maps>, j: nat, i: nat, k: Key)
    requires IsRun(es, ss) && Dropped(es, ss, j, i, k)
    ensures !InList(ss[|es|], k)
  {
    ListedSettles(es, ss, j, k);
    StaysSettled(es, ss, j + 1, i + 1, k);
    assert Has(ss[i], es[i].thread, Dropping(k.0));
    assert ss[i + 1] == Next(ss[i], es[i]);
    LostForGood(es, ss, i, k);
  }

  lemma ReplacedIsLost(es: seq<Micro>, ss: seq<Maps>, j: nat, i: nat, other: Key, k: Key)
    requires IsRun(es, ss) && Replaced(es, ss, j, i, other, k)
    ensures !InList(ss[|es|], k)
  {
    ListedSettles(es, ss, j, k);
    StaysSettled(es, ss, j + 1, i + 1, k);
    assert Has(ss[i], es[i].thread, Creating(other));
    assert ss[i + 1] == Next(ss[i], es[i]);
    LostForGood(es, ss, i, k);
  }

  lemma LostIsLost(es: seq<Micro>, ss: seq<Maps>, k: Key)
    requires IsRun(es, ss) && Lost(es, ss, |es|, k)
    ensures !InList(ss[|es|], k)
  {
    if j: nat :| j < |es| && Panics(es, ss, j, k) {
      ListedSettles(es, ss, j, k);
      LostForGood(es, ss, j, k);
    } else if j: nat, i: nat :| i < |es| && Dropped(es, ss, j, i, k) {
      DroppedIsLost(es, ss, j, i, k);
    } else {
      var j: nat, i: nat, other: Key :| i < |es| && Replaced(es, ss, j, i, other, k);
      ReplacedIsLost(es, ss, j, i, other, k);
    }
  }

  /** An add that saw or made a list finds none only after a clear has dropped it in between. */
  lemma {:induction false} ListMissing(es: seq<Micro>, ss: seq<Maps>, n: nat, t: nat, k: Key) returns (i: nat)
    requires IsRun(es, ss) && n <= |es| && Has(ss[n], t, Listing(k)) && k.0 !in ss[n].lists
    ensures i < n && es[i].ClearListing? && Has(ss[i], es[i].thread, Dropping(k.0)) && k.0 in ss[i].lists
    ensures Waits(ss, i, n, t, Listing(k))
  {
    var s, e := ss[n - 1], es[n - 1];
    if k.0 in s.lists {
      i := n - 1;
    } else {
      i := ListMissing(es, ss, n - 1, t, k);
    }
  }

  // ----- listed keys without an entry

  ghost predicate BeingUnlisted(s: Maps, k: Key) {
    exists t :: Has(s, t, Unlisting(k))
  }

  ghost predicate BeingCleared(s: Maps, p: PluginId) {
    exists t :: t in s.calls && (s.calls[t].Clearing? || s.calls[t].Dropping?) && s.calls[t].plugin == p
  }

  ghost predicate UnlistedBefore(es: seq<Micro>, ss: seq<Maps>, n: nat, k: Key)
    requires IsRun(es, ss) && n <= |es|
  {
    BeingUnlisted(ss[n], k) || exists i: nat :: i < n && Unlists(es, ss, i, k)
  }

  /** Who takes an entry out has to unlist it, or is clearing its plugin. */
  lemma RemovedBy(s: Maps, e: Micro, k: Key)
    requires k in s.entries && k !in Next(s, e).entries
    ensures e.thread in s.calls
    ensures Has(Next(s, e), e.thread, Unlisting(k)) ||
            (BeingCleared(Next(s, e), k.0) && s.calls[e.thread].Clearing? && s.calls[e.thread].plugin == k.0 &&
             k.1 in s.calls[e.thread].todo)
  {
    if s.calls[e.thread].Clearing? {
      assert Next(s, e).calls[e.thread].Clearing? && Next(s, e).calls[e.thread].plugin == k.0;
    }
  }

  lemma UnlistGoesOn(es: seq<Micro>, ss: seq<Maps>, n: nat, k: Key)
    requires IsRun(es, ss) && n < |es| && BeingUnlisted(ss[n], k)
    ensures UnlistedBefore(es, ss, n + 1, k)
    ensures InList(ss[n + 1], k) ==> BeingUnlisted(ss[n + 1], k) || !InList(ss[n], k)
  {
    var t :| Has(ss[n], t, Unlisting(k));
    assert Next(ss[n], es[n]) == ss[n + 1];
    assert Has(ss[n + 1], t, Unlisting(k)) || Unlists(es, ss, n, k);
  }

  lemma {:induction false} PendingTold(es: seq<Micro>, ss: seq<Maps>, n: nat, k: Key)
    requires IsRun(es, ss) && n <= |es| && BeingAdded(ss[n], k) && k !in ss[n].entries
    ensures UnlistedBefore(es, ss, n, k)
  {
    var s, e := ss[n - 1], es[n - 1];
    InvAt(es, ss, n - 1);
    var t :| t in ss[n].calls && Adds(ss[n].calls[t], k);
    AddsBefore(s, e, t, k);
    if k in s.entries {
      RemovedBy(s, e, k);
    } else {
      PendingTold(es, ss, n - 1, k);
      if BeingUnlisted(s, k) {
        UnlistGoesOn(es, ss, n - 1, k);
      }
    }
  }

  ghost predicate ListTold(es: seq<Micro>, ss: seq<Maps>, n: nat, k: Key)
    requires IsRun(es, ss) && n <= |es|
  {
    BeingUnlisted(ss[n], k) || BeingCleared(ss[n], k.0) || RemovedEarly(es, ss, n, k)
  }

  lemma ListedLate(es: seq<Micro>, ss: seq<Maps>, n: nat, k: Key)
    requires IsRun(es, ss) && n < |es| && Lists(es, ss, n, k) && k !in ss[n].entries
    ensures ListTold(es, ss, n + 1, k)
  {
    assert Adds(ss[n].calls[es[n].thread], k);
    PendingTold(es, ss, n, k);
    if t :| Has(ss[n], t, Unlisting(k)) {
      assert Has(ss[n + 1], t, Unlisting(k));
    } else {
      var i: nat :| i < n && Unlists(es, ss, i, k);
    }
  }

  lemma ClearGoesOn(s: Maps, e: Micro, k: Key)
    requires BeingCleared(s, k.0) && InList(s, k) && InList(Next(s, e), k)
    ensures BeingCleared(Next(s, e), k.0)
  {
    var t :| t in s.calls && (s.calls[t].Clearing? || s.calls[t].Dropping?) && s.calls[t].plugin == k.0;
    var s' := Next(s, e);
    assert t in s'.calls && (s'.calls[t].Clearing? || s'.calls[t].Dropping?) && s'.calls[t].plugin == k.0;
  }

  lemma {:induction false} ListsTold(es: seq<Micro>, ss: seq<Maps>, n: nat, k: Key)
    requires IsRun(es, ss) && n <= |es| && InList(ss[n], k) && k !in ss[n].entries
    ensures ListTold(es, ss, n, k)
  {
    var s, e := ss[n - 1], es[n - 1];
    if !InList(s, k) {
      ListedBy(s, e, k);
      ListedLate(es, ss, n - 1, k);
    } else if k in s.entries {
      RemovedBy(s, e, k);
    } else {
      ListsTold(es, ss, n - 1, k);
      if BeingUnlisted(s, k) {
        UnlistGoesOn(es, ss, n - 1, k);
      } else if BeingCleared(s, k.0) {
        ClearGoesOn(s, e, k);
      }
    }
  }

  // ----- when nothing is under way

  ghost predicate Quiet(es: seq<Micro>, ss: seq<Maps>) {
    IsRun(es, ss) && ss[|es|].calls == map[]
  }

  /**
   * A capability that is still stored is not listed exactly when its add panicked or was overtaken:
   * by a clear that had nothing more to remove, or by another add that had seen no list.
   */
  lemma OrphanIff(es: seq<Micro>, ss: seq<Maps>, k: Key)
    requires Quiet(es, ss) && k in ss[|es|].entries
    ensures !InList(ss[|es|], k) <==> Lost(es, ss, |es|, k)
  {
    EntriesTold(es, ss, |es|, k);
    if Lost(es, ss, |es|, k) {
      LostIsLost(es, ss, k);
    }
  }

  /** A listed capability is not stored exactly when it was removed before its add returned. */
  lemma DanglingIff(es: seq<Micro>, ss: seq<Maps>, k: Key)
    requires Quiet(es, ss) && InList(ss[|es|], k)
    ensures k !in ss[|es|].entries <==> RemovedEarly(es, ss, |es|, k)
  {
    if k !in ss[|es|].entries {
      ListsTold(es, ss, |es|, k);
    }
    if RemovedEarly(es, ss, |es|, k) {
      var i: nat, j: nat :| i < j < |es| && Unlists(es, ss, i, k) && Lists(es, ss, j, k);
      InvAt(es, ss, i);
      StaysSettled(es, ss, i, |es|, k);
    }
  }

  /** So the two maps list the same exactly when none of this happened to what is left in them. */
  lemma MapsAgreeIff(es: seq<Micro>, ss: seq<Maps>)
    requires Quiet(es, ss)
    ensures (forall k: Key :: k in ss[|es|].entries <==> InList(ss[|es|], k)) <==>
            && (forall k: Key :: k in ss[|es|].entries ==> !Lost(es, ss, |es|, k))
            && (forall k: Key :: InList(ss[|es|], k) ==> !RemovedEarly(es, ss, |es|, k))
  {
    forall k: Key | k in ss[|es|].entries
      ensures !InList(ss[|es|], k) <==> Lost(es, ss, |es|, k)
    {
      OrphanIff(es, ss, k);
    }
    forall k: Key | InList(ss[|es|], k)
      ensures k !in ss[|es|].entries <==> RemovedEarly(es, ss, |es|, k)
    {
      DanglingIff(es, ss, k);
    }
  }

  // ----- runs in which it goes wrong

  /** The states of a run. */
  lemma {:induction false} RunOf(es: seq<Micro>) returns (ss: seq<Maps>)
    ensures IsRun(es, ss)
    decreases |es|
  {
    if |es| == 0 {
      ss := [EMPTY];
    } else {
      var last := |es| - 1;
      var pre := RunOf(es[..last]);
      ss := pre + [Next(pre[last], es[last])];
    }
  }

  /** Two steps of a run. */
  lemma TwoSteps(es: seq<Micro>, ss: seq<Maps>, n: nat, d: Micro, e: Micro)
    requires IsRun(es, ss) && n + 2 <= |es| && es[n] == d && es[n + 1] == e
    ensures ss[n + 2] == Next(Next(ss[n], d), e)
  {
  }

  lemma BothAdd(p: PluginId)
    ensures Next(Next(EMPTY, AddEntry(0, p)), AddEntry(1, p)) ==
            Maps({(p, 1), (p, 2)}, map[], map[0 := Checking((p, 1)), 1 := Checking((p, 2))], 3)
  {
  }

  lemma BothSeeNoList(p: PluginId, s: Maps)
    requires s.lists == map[] && s.calls == map[0 := Checking((p, 1)), 1 := Checking((p, 2))]
    ensures Next(Next(s, AddCheck(0)), AddCheck(1)) ==
            s.(calls := map[0 := Creating((p, 1)), 1 := Creating((p, 2))])
  {
  }

  lemma FirstLists(p: PluginId, s: Maps)
    requires s.lists == map[] && s.calls == map[0 := Creating((p, 1)), 1 := Creating((p, 2))]
    ensures Next(Next(s, AddCreate(0)), AddListing(0)) ==
            s.(lists := map[p := {1}], calls := map[1 := Creating((p, 2))])
  {
    assert {} + {1} == {1};
  }

  lemma SecondReplaces(p: PluginId, s: Maps)
    requires s.lists == map[p := {1}] && s.calls == map[1 := Creating((p, 2))]
    ensures Next(Next(s, AddCreate(1)), AddListing(1)) == s.(lists := map[p := {2}], calls := map[])
  {
    assert {} + {2} == {2};
  }

  lemma FirstAddsBegin(p: PluginId, es: seq<Micro>, ss: seq<Maps>)
    requires IsRun(es, ss) && |es| == 8
    requires es[0] == AddEntry(0, p) && es[1] == AddEntry(1, p) && es[2] == AddCheck(0) && es[3] == AddCheck(1)
    ensures ss[4] == Maps({(p, 1), (p, 2)}, map[], map[0 := Creating((p, 1)), 1 := Creating((p, 2))], 3)
  {
    TwoSteps(es, ss, 0, AddEntry(0, p), AddEntry(1, p));
    BothAdd(p);
    TwoSteps(es, ss, 2, AddCheck(0), AddCheck(1));
    BothSeeNoList(p, ss[2]);
  }

  lemma FirstAddsEnd(p: PluginId, es: seq<Micro>, ss: seq<Maps>)
    requires IsRun(es, ss) && |es| == 8
    requires es[4] == AddCreate(0) && es[5] == AddListing(0) && es[6] == AddCreate(1) && es[7] == AddListing(1)
    requires ss[4] == Maps({(p, 1), (p, 2)}, map[], map[0 := Creating((p, 1)), 1 := Creating((p, 2))], 3)
    ensures ss[8] == Maps({(p, 1), (p, 2)}, map[p := {2}], map[], 3)
  {
    TwoSteps(es, ss, 4, AddCreate(0), AddListing(0));
    FirstLists(p, ss[4]);
    TwoSteps(es, ss, 6, AddCreate(1), AddListing(1));
    SecondReplaces(p, ss[6]);
  }

  /** Two first adds for a plugin: the second empty list takes the place of the list with the first id. */
  lemma FirstAddsLeaveOrphan(p: PluginId) returns (es: seq<Micro>, ss: seq<Maps>)
    ensures es == [AddEntry(0, p), AddEntry(1, p), AddCheck(0), AddCheck(1), AddCreate(0), AddListing(0),
                   AddCreate(1), AddListing(1)]
    ensures Quiet(es, ss) && ss[8].entries == {(p, 1), (p, 2)} && ss[8].lists == map[p := {2}]
  {
    es := [AddEntry(0, p), AddEntry(1, p), AddCheck(0), AddCheck(1), AddCreate(0), AddListing(0), AddCreate(1),
           AddListing(1)];
    ss := RunOf(es);
    FirstAddsBegin(p, es, ss);
    FirstAddsEnd(p, es, ss);
  }

  lemma AddWhileDropping(p: PluginId)
    ensures Next(Next(EMPTY, ClearFound(1, p)), AddEntry(0, p)) ==
            Maps({(p, 1)}, map[], map[0 := Checking((p, 1)), 1 := Dropping(p)], 2)
  {
  }

  lemma CreateList(p: PluginId, s: Maps, rest: map<nat, Call>)
    requires s.lists == map[] && s.calls == rest[0 := Checking((p, 1))]
    requires forall t :: t in rest ==> t == 1 && rest[t] == Dropping(p)
    ensures Next(Next(s, AddCheck(0)), AddCreate(0)) == s.(lists := map[p := {}], calls := rest[0 := Listing((p, 1))])
  {
  }

  lemma ListAndDrop(p: PluginId, s: Maps)
    requires s.lists == map[p := {}] && s.calls == map[0 := Listing((p, 1)), 1 := Dropping(p)]
    ensures Next(Next(s, AddListing(0)), ClearListing(1)) == s.(lists := map[], calls := map[])
  {
  }

  /** An add that lists its id after a clear has removed what it saw: no list shows the capability. */
  lemma ClearLeavesOrphan(p: PluginId) returns (es: seq<Micro>, ss: seq<Maps>)
    ensures es == [ClearFound(1, p), AddEntry(0, p), AddCheck(0), AddCreate(0), AddListing(0), ClearListing(1)]
    ensures Quiet(es, ss) && ss[6].entries == {(p, 1)} && ss[6].lists == map[]
  {
    es := [ClearFound(1, p), AddEntry(0, p), AddCheck(0), AddCreate(0), AddListing(0), ClearListing(1)];
    ss := RunOf(es);
    TwoSteps(es, ss, 0, ClearFound(1, p), AddEntry(0, p));
    AddWhileDropping(p);
    TwoSteps(es, ss, 2, AddCheck(0), AddCreate(0));
    CreateList(p, ss[2], map[1 := Dropping(p)]);
    TwoSteps(es, ss, 4, AddListing(0), ClearListing(1));
    ListAndDrop(p, ss[4]);
  }

  lemma AddEntryAlone(p: PluginId)
    ensures Next(EMPTY, AddEntry(0, p)) == Maps({(p, 1)}, map[], map[0 := Checking((p, 1))], 2)
  {
  }

  lemma ClearSeesEmptyList(p: PluginId, s: Maps)
    requires s.lists == map[p := {}] && s.calls == map[0 := Listing((p, 1))]
    ensures Next(Next(s, ClearFound(1, p)), ClearRelease(1)) ==
            s.(calls := map[0 := Listing((p, 1)), 1 := Dropping(p)])
  {
  }

  lemma DropAndPanic(p: PluginId, s: Maps)
    requires s.lists == map[p := {}] && s.calls == map[0 := Listing((p, 1)), 1 := Dropping(p)]
    ensures Next(s, ClearListing(1)) == s.(lists := map[], calls := map[0 := Listing((p, 1))])
    ensures Next(Next(s, ClearListing(1)), AddListing(0)) == s.(lists := map[], calls := map[])
  {
  }

  lemma AddPanicsBegin(p: PluginId, es: seq<Micro>, ss: seq<Maps>)
    requires IsRun(es, ss) && |es| == 7 && es[0] == AddEntry(0, p) && es[1] == AddCheck(0) && es[2] == AddCreate(0)
    requires es[3] == ClearFound(1, p) && es[4] == ClearRelease(1)
    ensures ss[5] == Maps({(p, 1)}, map[p := {}], map[0 := Listing((p, 1)), 1 := Dropping(p)], 2)
  {
    AddEntryAlone(p);
    TwoSteps(es, ss, 1, AddCheck(0), AddCreate(0));
    CreateList(p, ss[1], map[]);
    TwoSteps(es, ss, 3, ClearFound(1, p), ClearRelease(1));
    ClearSeesEmptyList(p, ss[3]);
  }

  /** A clear drops the list that an add has just made: the add panics and leaves its capability unlisted. */
  lemma AddPanics(p: PluginId) returns (es: seq<Micro>, ss: seq<Maps>)
    ensures es == [AddEntry(0, p), AddCheck(0), AddCreate(0), ClearFound(1, p), ClearRelease(1),
                   ClearListing(1), AddListing(0)]
    ensures Quiet(es, ss) && Panics(es, ss, 6, (p, 1)) && ss[7].entries == {(p, 1)} && ss[7].lists == map[]
  {
    es := [AddEntry(0, p), AddCheck(0), AddCreate(0), ClearFound(1, p), ClearRelease(1), ClearListing(1),
           AddListing(0)];
    ss := RunOf(es);
    AddPanicsBegin(p, es, ss);
    TwoSteps(es, ss, 5, ClearListing(1), AddListing(0));
    DropAndPanic(p, ss[5]);
  }
}
