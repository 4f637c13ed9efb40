/** Plugin-call capabilities: function names and allow-all flags per plugin. */
module PluginCallCapability {
  import opened Wrappers
  import opened Requests

  datatype CallCap = CallCap(functions: map<PluginId, set<string>>, allowAll: map<PluginId, bool>)

  /** What the constructors and mutators keep: the two maps have the same keys. */
  ghost predicate Coherent(c: CallCap) {
    c.functions.Keys == c.allowAll.Keys
  }

  const NOTHING := CallCap(map[], map[])

  predicate AllowsAll(c: CallCap, p: PluginId) {
    p in c.allowAll && c.allowAll[p]
  }

  predicate IsCallAllowed(c: CallCap, p: PluginId, f: string) {
    p in c.functions && (AllowsAll(c, p) || f in c.functions[p])
  }

  function AllFunctions(p: PluginId): CallCap {
    CallCap(map[p := {}], map[p := true])
  }

  /** `add_function` */
  function AddFunction(c: CallCap, p: PluginId, f: string): CallCap {
    CallCap(c.functions[p := (if p in c.functions then c.functions[p] else {}) + {f}],
            if p in c.allowAll then c.allowAll else c.allowAll[p := false])
  }

  /** `set_allow_all_functions` */
  function SetAllowAll(c: CallCap, p: PluginId, allow: bool): CallCap {
    CallCap(if p in c.functions then c.functions else c.functions[p := {}], c.allowAll[p := allow])
  }

  /** Adding a function allows that one call more. */
  lemma AddFunctionAllows(c: CallCap, p: PluginId, f: string, q: PluginId, g: string)
    requires Coherent(c)
    ensures Coherent(AddFunction(c, p, f))
    ensures IsCallAllowed(AddFunction(c, p, f), q, g) <==> IsCallAllowed(c, q, g) || (q == p && g == f)
  {
  }

  /** The flag allows every function of the plugin; without it the functions named so far stay allowed. */
  lemma SetAllowAllAllows(c: CallCap, p: PluginId, allow: bool, q: PluginId, g: string)
    requires Coherent(c)
    ensures Coherent(SetAllowAll(c, p, allow))
    ensures IsCallAllowed(SetAllowAll(c, p, allow), q, g) <==>
            if q == p then allow || (p in c.functions && g in c.functions[p]) else IsCallAllowed(c, q, g)
  {
  }

  predicate Permits(c: CallCap, plugin: PluginText, f: string) {
    plugin.parsed.Some? && IsCallAllowed(c, plugin.parsed.value, f)
  }

  function ConstrainCall(c: CallCap, plugin: PluginText, f: string): Option<CallCap> {
    if Permits(c, plugin, f) then
      Some(CallCap(map[plugin.parsed.value := {f}], map[plugin.parsed.value := false]))
    else
      None
  }

  function Functions(c: CallCap, p: PluginId): set<string> {
    if p in c.functions then c.functions[p] else {}
  }

  function Join(a: CallCap, b: CallCap): CallCap {
    CallCap(map p | p in a.functions.Keys + b.functions.Keys :: Functions(a, p) + Functions(b, p),
            map p | p in a.allowAll.Keys + b.allowAll.Keys :: AllowsAll(a, p) || AllowsAll(b, p))
  }

  predicate Leq(a: CallCap, b: CallCap) {
    forall p :: p in a.functions ==>
      p in b.functions && if AllowsAll(a, p) then AllowsAll(b, p)
                          else AllowsAll(b, p) || a.functions[p] <= b.functions[p]
  }

  /** The functions of plugin `p` that the meet names one by one. */
  function MeetFunctions(a: CallCap, b: CallCap, p: PluginId): set<string>
    requires p in a.functions && p in b.functions
  {
    if AllowsAll(a, p) && AllowsAll(b, p) then {}
    else if AllowsAll(a, p) then b.functions[p]
    else if AllowsAll(b, p) then a.functions[p]
    else a.functions[p] * b.functions[p]
  }

  /** The plugins the meet has an entry for. */
  function MeetPlugins(a: CallCap, b: CallCap): set<PluginId> {
    set p | p in a.functions && p in b.functions &&
            ((AllowsAll(a, p) && AllowsAll(b, p)) || MeetFunctions(a, b, p) != {})
  }

  function MeetOf(a: CallCap, b: CallCap): CallCap {
    var ps := MeetPlugins(a, b);
    CallCap(map p | p in ps :: MeetFunctions(a, b, p), map p | p in ps :: AllowsAll(a, p) && AllowsAll(b, p))
  }

  function Meet(a: CallCap, b: CallCap): Option<CallCap> {
    var m := MeetOf(a, b);
    if m.functions == map[] then None else Some(m)
  }

  /** The join allows exactly the calls either operand allows. */
  lemma JoinExact(a: CallCap, b: CallCap, p: PluginId, f: string)
    requires Coherent(a) && Coherent(b)
    ensures Coherent(Join(a, b))
    ensures IsCallAllowed(Join(a, b), p, f) <==> IsCallAllowed(a, p, f) || IsCallAllowed(b, p, f)
  {
  }

  /** The meet allows exactly the calls both operands allow. */
  lemma MeetExact(a: CallCap, b: CallCap, p: PluginId, f: string)
    ensures Meet(a, b).Some? ==> Coherent(Meet(a, b).value)
    ensures Meet(a, b).Some? && IsCallAllowed(Meet(a, b).value, p, f) <==>
            IsCallAllowed(a, p, f) && IsCallAllowed(b, p, f)
  {
    if IsCallAllowed(a, p, f) && IsCallAllowed(b, p, f) {
      assert p in MeetPlugins(a, b) by {
        if !(AllowsAll(a, p) && AllowsAll(b, p)) {
          assert f in MeetFunctions(a, b, p);
        }
      }
      assert p in MeetOf(a, b).functions;
    }
  }

  /** The meet fails exactly when no call is allowed by both. */
  lemma MeetFailsIff(a: CallCap, b: CallCap)
    ensures Meet(a, b).None? <==> forall p, f :: !(IsCallAllowed(a, p, f) && IsCallAllowed(b, p, f))
  {
    if Meet(a, b).None? {
      forall p, f
        ensures !(IsCallAllowed(a, p, f) && IsCallAllowed(b, p, f))
      {
        MeetExact(a, b, p, f);
      }
    } else {
      var p :| p in MeetOf(a, b).functions;
      var f := if MeetFunctions(a, b, p) != {} then AnyOf(MeetFunctions(a, b, p)) else "";
      assert IsCallAllowed(MeetOf(a, b), p, f);
      MeetExact(a, b, p, f);
    }
  }

  ghost function AnyOf(s: set<string>): string
    requires s != {}
  {
    var x :| x in s; x
  }

  // ----- the coded order

  lemma LeqPreorder(a: CallCap, b: CallCap, c: CallCap)
    ensures Leq(a, a)
    ensures Leq(a, b) && Leq(b, c) ==> Leq(a, c)
  {
  }

  /** A string longer than every element of a finite set is not in it. */
  lemma {:induction false} Longer(s: set<string>) returns (x: string)
    ensures forall y :: y in s ==> |y| < |x|
    decreases |s|
  {
    if s == {} {
      x := "a";
    } else {
      var y :| y in s;
      var z := Longer(s - {y});
      x := z + y;
      if |z| > |y| {
        x := z;
      } else {
        x := y + "a";
      }
      assert forall w :: w in s ==> w == y || w in s - {y};
    }
  }

  /** The coded order: calls allowed on the left are allowed on the right, and plugin entries have a counterpart. */
  lemma LeqIffInclusion(a: CallCap, b: CallCap)
    ensures Leq(a, b) <==>
            && a.functions.Keys <= b.functions.Keys
            && (forall p, f :: IsCallAllowed(a, p, f) ==> IsCallAllowed(b, p, f))
  {
    if a.functions.Keys <= b.functions.Keys && forall p, f :: IsCallAllowed(a, p, f) ==> IsCallAllowed(b, p, f) {
      forall p | p in a.functions
        ensures AllowsAll(a, p) ==> AllowsAll(b, p)
        ensures AllowsAll(b, p) || a.functions[p] <= b.functions[p]
      {
        var x := Longer(b.functions[p]);
        assert IsCallAllowed(a, p, x) ==> IsCallAllowed(b, p, x);
        forall f | f in a.functions[p]
          ensures AllowsAll(b, p) || f in b.functions[p]
        {
          assert IsCallAllowed(a, p, f);
        }
      }
    }
  }

  /** In the coded order the join is the least upper bound. */
  lemma JoinLeast(a: CallCap, b: CallCap, c: CallCap)
    requires Coherent(a) && Coherent(b)
    ensures Leq(a, Join(a, b)) && Leq(b, Join(a, b))
    ensures Leq(a, c) && Leq(b, c) <==> Leq(Join(a, b), c)
  {
    LeqPreorder(a, Join(a, b), c);
    LeqPreorder(b, Join(a, b), c);
    if Leq(a, c) && Leq(b, c) {
      forall p | p in Join(a, b).functions
        ensures p in c.functions
        ensures AllowsAll(Join(a, b), p) ==> AllowsAll(c, p)
        ensures AllowsAll(c, p) || Join(a, b).functions[p] <= c.functions[p]
      {
        assert p in a.functions || p in b.functions;
      }
    }
  }

  /** No plugin entry without an allowed call. */
  ghost predicate NoEmptyEntries(c: CallCap) {
    forall p :: p in c.functions ==> AllowsAll(c, p) || c.functions[p] != {}
  }

  lemma MeetBelow(a: CallCap, b: CallCap)
    requires Meet(a, b).Some?
    ensures Leq(Meet(a, b).value, a) && Leq(Meet(a, b).value, b) && NoEmptyEntries(Meet(a, b).value)
  {
  }

  /** In the coded order the meet is the greatest lower bound without empty entries. */
  lemma MeetGreatest(a: CallCap, b: CallCap, c: CallCap)
    requires NoEmptyEntries(c) && c.functions != map[]
    ensures Meet(a, b).Some? ==> Leq(Meet(a, b).value, a) && Leq(Meet(a, b).value, b)
    ensures Meet(a, b).Some? ==> NoEmptyEntries(Meet(a, b).value)
    ensures Leq(c, a) && Leq(c, b) <==> Meet(a, b).Some? && Leq(c, Meet(a, b).value)
  {
    if Meet(a, b).Some? {
      MeetBelow(a, b);
    }
    if Leq(c, a) && Leq(c, b) {
      var m := MeetOf(a, b);
      forall p | p in c.functions
        ensures p in m.functions
        ensures if AllowsAll(c, p) then AllowsAll(m, p) else AllowsAll(m, p) || c.functions[p] <= m.functions[p]
      {
      }
      var p :| p in c.functions;
      assert p in m.functions;
    } else if Meet(a, b).Some? && Leq(c, Meet(a, b).value) {
      LeqPreorder(c, Meet(a, b).value, a);
      LeqPreorder(c, Meet(a, b).value, b);
    }
  }

  // ----- the loops

  /** The first loop of `join`. */
  method MergeFunctions(a: CallCap, b: CallCap) returns (functions: map<PluginId, set<string>>)
    ensures functions == Join(a, b).functions
  {
    functions := a.functions;
    var todo := b.functions.Keys;
    while todo != {}
      invariant todo <= b.functions.Keys
      invariant functions.Keys == a.functions.Keys + (b.functions.Keys - todo)
      invariant forall p :: p in functions ==>
                  functions[p] == Functions(a, p) + if p in todo then {} else Functions(b, p)
    {
      var p :| p in todo;
      functions := functions[p := (if p in functions then functions[p] else {}) + b.functions[p]];
      todo := todo - {p};
    }
  }

  /** The second loop of `join`. */
  method MergeFlags(a: CallCap, b: CallCap) returns (flags: map<PluginId, bool>)
    ensures flags == Join(a, b).allowAll
  {
    flags := a.allowAll;
    var todo := b.allowAll.Keys;
    while todo != {}
      invariant todo <= b.allowAll.Keys
      invariant flags.Keys == a.allowAll.Keys + (b.allowAll.Keys - todo)
      invariant forall p :: p in flags ==> flags[p] == (AllowsAll(a, p) || (p !in todo && AllowsAll(b, p)))
    {
      var p :| p in todo;
      flags := flags[p := (p in flags && flags[p]) || b.allowAll[p]];
      todo := todo - {p};
    }
  }

  method ComputeJoin(a: CallCap, b: CallCap) returns (r: CallCap)
    ensures r == Join(a, b)
  {
    var functions := MergeFunctions(a, b);
    var flags := MergeFlags(a, b);
    r := CallCap(functions, flags);
  }

  /** The part of the loop of `meet` that handles one shared plugin. */
  method MeetPlugin(a: CallCap, b: CallCap, p: PluginId, result: CallCap) returns (r: CallCap)
    requires p in a.functions && p in b.functions
    requires Coherent(result) && p !in result.functions
    ensures Coherent(r)
    ensures p in MeetPlugins(a, b) ==>
              r == CallCap(result.functions[p := MeetFunctions(a, b, p)],
                           result.allowAll[p := AllowsAll(a, p) && AllowsAll(b, p)])
    ensures p !in MeetPlugins(a, b) ==> r == result
  {
    r := result;
    if AllowsAll(a, p) && AllowsAll(b, p) {
      return SetAllowAll(r, p, true);
    }
    var candidates := if AllowsAll(a, p) then b.functions[p] else a.functions[p];
    ghost var all := MeetFunctions(a, b, p);
    var todo := candidates;
    while todo != {}
      invariant todo <= candidates && Coherent(r)
      invariant all - todo == {} ==> r == result
      invariant all - todo != {} ==> r == CallCap(result.functions[p := all - todo], result.allowAll[p := false])
    {
      var f :| f in todo;
      if AllowsAll(a, p) || AllowsAll(b, p) || f in b.functions[p] {
        ghost var named := if p in r.functions then r.functions[p] else {};
        assert named == all - todo && all - (todo - {f}) == named + {f};
        r := AddFunction(r, p, f);
        assert r.functions[p] == all - (todo - {f});
        assert r.functions == result.functions[p := all - (todo - {f})];
        assert r.allowAll == result.allowAll[p := false];
      } else {
        assert all - (todo - {f}) == all - todo;
      }
      todo := todo - {f};
    }
    assert all - {} == all;
  }

  method ComputeMeet(a: CallCap, b: CallCap) returns (r: Option<CallCap>)
    ensures r == Meet(a, b)
  {
    var result := NOTHING;
    var todo := a.functions.Keys;
    while todo != {}
      invariant todo <= a.functions.Keys
      invariant Coherent(result) && result.functions.Keys == MeetPlugins(a, b) - todo
      invariant forall p :: p in result.functions ==>
                  && result.functions[p] == MeetFunctions(a, b, p)
                  && result.allowAll[p] == (AllowsAll(a, p) && AllowsAll(b, p))
    {
      var p :| p in todo;
      if p in b.functions {
        result := MeetPlugin(a, b, p, result);
      }
      todo := todo - {p};
    }
    assert result == MeetOf(a, b);
    return if result.functions == map[] then None else Some(result);
  }
}
