/** What the accesses of one call amount to when no other call comes between. */
module StoreMapCalls {
  import opened Requests
  import opened StoreMapSteps

  function Steps(s: Maps, es: seq<Micro>): Maps
    decreases |es|
  {
    if |es| == 0 then s else Steps(Next(s, es[0]), es[1..])
  }

  /** The thread has no call under way, and no clear holds the plugin's list. */
  predicate Free(s: Maps, t: nat, p: PluginId) {
    t !in s.calls && !Held(s, p)
  }

  function ListOf(s: Maps, p: PluginId): set<nat> {
    if p in s.lists then s.lists[p] else {}
  }

  /** While a clear holds a list it stays as it is, and neither it nor its end can be lost. */
  lemma HeldListStays(s: Maps, e: Micro, t: nat, p: PluginId)
    requires t in s.calls && s.calls[t].Clearing? && s.calls[t].plugin == p
    ensures p in Next(s, e).lists <==> p in s.lists
    ensures p in s.lists ==> Next(s, e).lists[p] == s.lists[p]
    ensures e.thread != t ==> t in Next(s, e).calls && Next(s, e).calls[t] == s.calls[t]
  {
    assert Held(s, p);
  }

  lemma TwoSteps(s: Maps, a: Micro, b: Micro)
    ensures Steps(s, [a, b]) == Next(Next(s, a), b)
  {
    assert [a, b][1..] == [b] && [b][1..] == [];
    assert Steps(Next(s, a), [b]) == Steps(Next(Next(s, a), b), []);
  }

  lemma ThreeSteps(s: Maps, a: Micro, b: Micro, c: Micro)
    ensures Steps(s, [a, b, c]) == Next(Next(Next(s, a), b), c)
  {
    assert [a, b, c][1..] == [b, c];
    TwoSteps(Next(s, a), b, c);
  }

  lemma FourSteps(s: Maps, a: Micro, b: Micro, c: Micro, d: Micro)
    ensures Steps(s, [a, b, c, d]) == Next(Next(Next(Next(s, a), b), c), d)
  {
    assert [a, b, c, d][1..] == [b, c, d];
    ThreeSteps(Next(s, a), b, c, d);
  }

  /** Other calls hold the list as before when a call that is no clear is under way. */
  lemma SameHolders(s: Maps, s': Maps, t: nat, p: PluginId)
    requires t !in s.calls && s'.calls.Keys == s.calls.Keys + {t} && !s'.calls[t].Clearing?
    requires forall u :: u in s.calls ==> s'.calls[u] == s.calls[u]
    ensures Held(s', p) <==> Held(s, p)
  {
    if u :| u in s.calls && s.calls[u].Clearing? && s.calls[u].plugin == p {
      assert s'.calls[u].Clearing?;
    }
  }

  lemma AddBegins(s: Maps, t: nat, p: PluginId) returns (s': Maps)
    requires Free(s, t, p)
    ensures s' == Next(Next(s, AddEntry(t, p)), AddCheck(t))
    ensures s' == Maps(s.entries + {(p, s.nextId)}, s.lists,
                       s.calls[t := if p in s.lists then Listing((p, s.nextId)) else Creating((p, s.nextId))],
                       s.nextId + 1)
    ensures !Held(s', p)
  {
    s' := Next(Next(s, AddEntry(t, p)), AddCheck(t));
    SameHolders(s, s', t, p);
  }

  lemma AddEnds(s: Maps, t: nat, k: Key) returns (s': Maps)
    requires !Held(s, k.0)
    requires if k.0 in s.lists then Has(s, t, Listing(k)) else Has(s, t, Creating(k))
    ensures s' == Next(Next(s, AddCreate(t)), AddListing(t))
    ensures s' == s.(lists := s.lists[k.0 := ListOf(s, k.0) + {k.1}], calls := s.calls - {t})
  {
    var made := Next(s, AddCreate(t));
    if k.0 !in s.lists {
      assert made == s.(lists := s.lists[k.0 := {}], calls := s.calls[t := Listing(k)]);
      SameHolders(s.(calls := s.calls - {t}), made, t, k.0);
      assert !Held(s.(calls := s.calls - {t}), k.0);
    }
    s' := Next(made, AddListing(t));
  }

  /** An add alone stores its new key and puts it into the plugin's list, which it makes if there is none. */
  lemma AddAlone(s: Maps, t: nat, p: PluginId)
    requires Free(s, t, p)
    ensures Steps(s, [AddEntry(t, p), AddCheck(t), AddCreate(t), AddListing(t)]) ==
            Maps(s.entries + {(p, s.nextId)}, s.lists[p := ListOf(s, p) + {s.nextId}], s.calls, s.nextId + 1)
  {
    FourSteps(s, AddEntry(t, p), AddCheck(t), AddCreate(t), AddListing(t));
    var s1 := AddBegins(s, t, p);
    var s2 := AddEnds(s1, t, (p, s.nextId));
    assert s1.calls - {t} == s.calls;
  }

  /** A removal alone takes the key out of both maps, and a removal of a missing key changes nothing. */
  lemma RemoveAlone(s: Maps, t: nat, k: Key)
    requires Free(s, t, k.0)
    ensures Steps(s, [RemoveFound(t, k), RemoveEntry(t), RemoveListing(t)]) ==
            if k in s.entries then
              s.(entries := s.entries - {k},
                 lists := if k.0 in s.lists then s.lists[k.0 := s.lists[k.0] - {k.1}] else s.lists)
            else s
  {
    ThreeSteps(s, RemoveFound(t, k), RemoveEntry(t), RemoveListing(t));
    if k in s.entries {
      var s2 := Next(Next(s, RemoveFound(t, k)), RemoveEntry(t));
      assert s2 == s.(entries := s.entries - {k}, calls := s.calls[t := Unlisting(k)]);
      SameHolders(s, s2, t, k.0);
      assert s.calls[t := Unlisting(k)] - {t} == s.calls;
    }
  }

  lemma StepsConcat(s: Maps, a: seq<Micro>, b: seq<Micro>)
    ensures Steps(s, a + b) == Steps(Steps(s, a), b)
    decreases |a|
  {
    if |a| == 0 {
      assert a + b == b;
    } else {
      assert (a + b)[0] == a[0] && (a + b)[1..] == a[1..] + b;
      StepsConcat(Next(s, a[0]), a[1..], b);
    }
  }

  function KeysOf(p: PluginId, ids: set<nat>): set<Key> {
    set id | id in ids :: (p, id)
  }

  /** The removals of a clear, in any order. */
  lemma {:induction false} ClearRemoves(s: Maps, t: nat, p: PluginId, todo: set<nat>) returns (es: seq<Micro>)
    requires Has(s, t, Clearing(p, todo))
    ensures forall i :: 0 <= i < |es| ==> es[i].thread == t
    ensures Steps(s, es) == s.(entries := s.entries - KeysOf(p, todo), calls := s.calls[t := Clearing(p, {})])
    decreases |todo|
  {
    if todo == {} {
      es := [];
      assert KeysOf(p, todo) == {} && s.calls[t := Clearing(p, {})] == s.calls;
    } else {
      var id :| id in todo;
      var s' := Next(s, ClearEntry(t, id));
      var rest := ClearRemoves(s', t, p, todo - {id});
      es := [ClearEntry(t, id)] + rest;
      assert es[1..] == rest;
      assert KeysOf(p, todo) == {(p, id)} + KeysOf(p, todo - {id});
      assert s'.entries - KeysOf(p, todo - {id}) == s.entries - KeysOf(p, todo);
    }
  }

  lemma ClearEnds(s: Maps, t: nat, p: PluginId)
    requires t !in s.calls && !Held(s, p)
    ensures var c := s.(calls := s.calls[t := Clearing(p, {})]);
            Steps(c, [ClearRelease(t), ClearListing(t)]) == s.(lists := s.lists - {p})
  {
    var c := s.(calls := s.calls[t := Clearing(p, {})]);
    var d := Next(c, ClearRelease(t));
    TwoSteps(c, ClearRelease(t), ClearListing(t));
    assert d == s.(calls := s.calls[t := Dropping(p)]);
    SameHolders(s, d, t, p);
    assert d.calls - {t} == s.calls;
  }

  /** A clear alone takes out the listed keys of the plugin and its list. */
  lemma ClearAlone(s: Maps, t: nat, p: PluginId) returns (es: seq<Micro>)
    requires Free(s, t, p)
    ensures forall i :: 0 <= i < |es| ==> es[i].thread == t
    ensures Steps(s, es) == s.(entries := s.entries - KeysOf(p, ListOf(s, p)), lists := s.lists - {p})
  {
    var s1 := Next(s, ClearFound(t, p));
    if p in s.lists {
      var rest := ClearRemoves(s1, t, p, s.lists[p]);
      var all := rest + [ClearRelease(t), ClearListing(t)];
      es := [ClearFound(t, p)] + all;
      assert es[1..] == all;
      StepsConcat(s1, rest, [ClearRelease(t), ClearListing(t)]);
      var left := s.(entries := s.entries - KeysOf(p, s.lists[p]));
      assert s1.calls[t := Clearing(p, {})] == left.calls[t := Clearing(p, {})];
      ClearEnds(left, t, p);
    } else {
      es := [ClearFound(t, p), ClearListing(t)];
      TwoSteps(s, ClearFound(t, p), ClearListing(t));
      SameHolders(s, s1, t, p);
      assert s1.calls - {t} == s.calls && s.lists - {p} == s.lists && KeysOf(p, {}) == {};
      assert s.entries - {} == s.entries;
    }
  }
}
