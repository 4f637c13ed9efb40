/** What pools do to their queues, said once. */
module Queues {
  import opened Wrappers

  /** The number of elements popped and thrown away before one that is kept, or all. */
  function Skipped<T>(queue: seq<T>, bad: T -> bool): (n: nat)
    ensures n <= |queue|
    ensures forall i :: 0 <= i < n ==> bad(queue[i])
    ensures n < |queue| ==> !bad(queue[n])
  {
    if |queue| == 0 || !bad(queue[0]) then 0 else 1 + Skipped(queue[1..], bad)
  }

  /** The elements that are kept, in their order. */
  function Kept<T>(queue: seq<T>, keep: T -> bool): (k: seq<T>)
    ensures |k| <= |queue|
    ensures forall i :: 0 <= i < |k| ==> k[i] in queue && keep(k[i])
    ensures forall i :: 0 <= i < |queue| && keep(queue[i]) ==> queue[i] in k
  {
    if |queue| == 0 then [] else (if keep(queue[0]) then [queue[0]] else []) + Kept(queue[1..], keep)
  }

  lemma Regroup<T>(a: seq<T>, b: seq<T>, c: seq<T>)
    ensures a + (b + c) == (a + b) + c
  {
  }

  lemma KeptFirst<T>(x: T, queue: seq<T>, keep: T -> bool)
    ensures Kept([x] + queue, keep) == (if keep(x) then [x] else []) + Kept(queue, keep)
  {
    assert ([x] + queue)[1..] == queue;
  }

  /** Keeping works element by element, in order. */
  lemma {:induction false} KeptByParts<T>(a: seq<T>, b: seq<T>, keep: T -> bool)
    ensures Kept(a + b, keep) == Kept(a, keep) + Kept(b, keep)
    decreases |a|
  {
    if |a| == 0 {
      assert a + b == b;
    } else {
      var x, rest := a[0], a[1..];
      KeptByParts(rest, b, keep);
      KeptFirst(x, rest + b, keep);
      KeptFirst(x, rest, keep);
      assert a == [x] + rest;
      Regroup([x], rest, b);
      Regroup(if keep(x) then [x] else [], Kept(rest, keep), Kept(b, keep));
    }
  }

  /** The values among optional ones, in their order. */
  function Values<T>(options: seq<Option<T>>): (vs: seq<T>)
    ensures |vs| <= |options|
  {
    if |options| == 0 then []
    else if options[0].Some? then [options[0].value] + Values(options[1..])
    else Values(options[1..])
  }

  /** Every success contributes its value, in order. */
  lemma {:induction false} ValuesByParts<T>(a: seq<Option<T>>, b: seq<Option<T>>, x: T)
    ensures Values(a + b) == Values(a) + Values(b)
    ensures Values([Some(x)]) == [x] && Values<T>([None]) == []
    decreases |a|
  {
    if |a| == 0 {
      assert a + b == b;
      assert [Some(x)][1..] == [] && [Option<T>.None][1..] == [];
    } else {
      ValuesByParts(a[1..], b, x);
      assert (a + b)[0] == a[0] && (a + b)[1..] == a[1..] + b;
    }
  }

  /** Taking the option at `i` into the values collected so far. */
  lemma NextValue<T>(options: seq<Option<T>>, i: nat, collected: seq<T>)
    requires i < |options| && collected + Values(options[i..]) == Values(options)
    ensures (if options[i].Some? then collected + [options[i].value] else collected) + Values(options[i + 1..]) ==
            Values(options)
  {
    var here := options[i..];
    assert here[0] == options[i] && here[1..] == options[i + 1..];
    var rest := Values(here[1..]);
    if options[i].Some? {
      assert Values(here) == [options[i].value] + rest;
      assert collected + ([options[i].value] + rest) == collected + [options[i].value] + rest;
    } else {
      assert Values(here) == rest;
    }
  }

  /** Passing the element at `i` keeps it in place or leaves it out. */
  lemma KeptAt<T>(queue: seq<T>, i: nat, keep: T -> bool)
    requires i < |queue|
    ensures queue[..i] + Kept(queue[i..], keep) ==
            (if keep(queue[i]) then queue[..i + 1] else queue[..i]) + Kept(queue[i + 1..], keep)
  {
    assert queue[i..][1..] == queue[i + 1..];
  }

  lemma RemoveAt<T>(queue: seq<T>, i: nat)
    requires i < |queue|
    ensures var left := queue[..i] + queue[i + 1..]; left[..i] == queue[..i] && left[i..] == queue[i + 1..]
  {
  }
}
