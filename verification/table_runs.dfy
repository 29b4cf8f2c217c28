// Runs of a hash table: any script of actions is that of a finite map and of a plain list
// of items, and doubling is given up exactly when it twice in a row did not help.
module TableRuns {
  import opened Memory
  import opened Sequences
  import opened Bits
  import opened Layouts
  import opened Accounts
  import opened HashTables

  datatype Action = Put(item: Item) | Drop(key: seq<byte>) | Look(key: seq<byte>)
  {
    function Key(): seq<byte> {
      match this
      case Put(item) => item.key
      case Drop(key) => key
      case Look(key) => key
    }
  }

  // what the actions make of a map, and what they answer
  function Mapped(m: map<seq<byte>, Item>, a: Action): map<seq<byte>, Item> {
    match a
    case Put(item) => m[item.key := item]
    case Drop(key) => m - {key}
    case Look(_) => m
  }

  function After(m: map<seq<byte>, Item>, script: seq<Action>): map<seq<byte>, Item> {
    if script == [] then m else Mapped(After(m, script[..|script| - 1]), script[|script| - 1])
  }

  function Answer(m: map<seq<byte>, Item>, a: Action): Item? {
    if a.Key() in m then m[a.Key()] else null
  }

  // what they make of a plain list of items
  function Listed(s: seq<Item>, a: Action): seq<Item> {
    match a
    case Put(item) => Omit(s, item.key) + [item]
    case Drop(key) => Omit(s, key)
    case Look(_) => s
  }

  function ListAfter(s: seq<Item>, script: seq<Action>): seq<Item> {
    if script == [] then s else Listed(ListAfter(s, script[..|script| - 1]), script[|script| - 1])
  }

  // what they make of a table
  ghost predicate Acts(a: Action, t: Account, t': Account) {
    t.Valid() && match a
    case Put(item) => t.Without(item.key).Adds(item, t')
    case Drop(key) => t' == t.Without(key)
    case Look(_) => t' == t
  }

  lemma ActsOn(a: Action, t: Account, t': Account)
    requires Acts(a, t, t')
    ensures t'.Valid() && t'.l.byKey == Mapped(t.l.byKey, a) && t'.l.order == Listed(t.l.order, a) && t'.l.hash == t.l.hash
  {
    WithoutOrder(t, a.Key());
    match a
    case Put(item) => t.Without(item.key).AddsValid(item, t');
    case Drop(_) =>
    case Look(_) =>
  }

  method Step(t: Table, a: Action) returns (answer: Item?)
    requires t.Valid()
    modifies t, t.buckets, t.layout.place.Keys, if a.Put? then {a.item} else {}
    ensures t.Valid() && answer == Answer(old(t.Value()).l.byKey, a) && Acts(a, old(t.Value()), t.Value())
    ensures t.layout.place.Keys <= old(t.layout.place.Keys) + if a.Put? then {a.item} else {}
    ensures t.buckets == old(t.buckets) || fresh(t.buckets)
  {
    t.ValueValid();
    match a
    case Put(item) => answer := t.Replace(item);
    case Drop(key) => answer := t.Remove(key);
    case Look(key) => answer := t.Find(key);
  }

  // the states a table goes through, and its answers, in the actions so far
  ghost predicate Ran(script: seq<Action>, trace: seq<Account>, answers: seq<Item?>) {
    |trace| == |answers| + 1 <= |script| + 1 && forall u {:trigger Shown(u)} :: Shown(u) ==>
      forall i | 0 <= i < |answers| :: Acts(script[i], trace[i], trace[i + 1]) && answers[i] == Answer(trace[i].l.byKey, script[i])
  }

  lemma RanOn(script: seq<Action>, trace: seq<Account>, answers: seq<Item?>, t: Account, answer: Item?)
    requires Ran(script, trace, answers) && |answers| < |script|
    requires var k := |answers|; Acts(script[k], trace[k], t) && answer == Answer(trace[k].l.byKey, script[k])
    ensures Ran(script, trace + [t], answers + [answer])
  {
    assert Shown(0);
    var ts, all := trace + [t], answers + [answer];
    forall i | 0 <= i < |all|
      ensures Acts(script[i], ts[i], ts[i + 1])
      ensures all[i] == Answer(ts[i].l.byKey, script[i])
    {
      if i < |answers| { assert Acts(script[i], trace[i], trace[i + 1]) && answers[i] == Answer(trace[i].l.byKey, script[i]); }
    }
  }

  // the states a table goes through in a script
  ghost predicate Follows(script: seq<Action>, trace: seq<Account>) {
    |trace| == |script| + 1 && trace[0].Valid() && forall i | 0 <= i < |script| :: Acts(script[i], trace[i], trace[i + 1])
  }

  lemma FollowsBefore(script: seq<Action>, trace: seq<Account>, k: nat)
    requires Follows(script, trace) && k <= |script|
    ensures Follows(script[..k], trace[..k + 1])
  {
    var s, t := script[..k], trace[..k + 1];
    forall i | 0 <= i < |s| ensures Acts(s[i], t[i], t[i + 1]) { assert Acts(script[i], trace[i], trace[i + 1]); }
  }

  // At every point of a run the table is the finite map and the list that the actions so far make.
  lemma {:induction false} RunsAs(script: seq<Action>, trace: seq<Account>, k: nat)
    requires Follows(script, trace) && k <= |script|
    ensures trace[k].Valid() && trace[k].l.byKey == After(trace[0].l.byKey, script[..k])
    ensures trace[k].l.order == ListAfter(trace[0].l.order, script[..k])
  {
    if k > 0 {
      RunsAs(script, trace, k - 1);
      assert Acts(script[k - 1], trace[k - 1], trace[k]);
      ActsOn(script[k - 1], trace[k - 1], trace[k]);
      assert script[..k][..k - 1] == script[..k - 1];
    }
  }

  // Every run of a table is the run of a finite map, and of a plain list of items.
  method Drive(t: Table, script: seq<Action>) returns (answers: seq<Item?>, ghost trace: seq<Account>)
    requires t.Valid()
    modifies t, t.buckets, t.layout.place.Keys, set a | a in script && a.Put? :: a.item
    ensures t.Valid() && t.layout.byKey == After(old(t.layout.byKey), script)
    ensures t.layout.order == ListAfter(old(t.layout.order), script)
    ensures |answers| == |script|
    ensures forall i | 0 <= i < |script| :: answers[i] == Answer(After(old(t.layout.byKey), script[..i]), script[i])
    ensures Follows(script, trace) && trace[0] == old(t.Value()) && trace[|script|] == t.Value()
  {
    ghost var items := set a | a in script && a.Put? :: a.item;
    t.ValueValid();
    answers, trace := [], [t.Value()];
    var i := 0;
    while i < |script|
      invariant 0 <= i == |answers| <= |script| && t.Valid() && Ran(script, trace, answers)
      invariant trace[0] == old(t.Value()) && trace[i] == t.Value()
      invariant t.layout.place.Keys <= old(t.layout.place.Keys) + items && (t.buckets == old(t.buckets) || fresh(t.buckets))
    {
      assert script[i] in script;
      var answer := Step(t, script[i]);
      RanOn(script, trace, answers, t.Value(), answer);
      answers, trace, i := answers + [answer], trace + [t.Value()], i + 1;
    }
    t.ValueValid();
    RanAll(script, trace, answers);
  }

  lemma RanAll(script: seq<Action>, trace: seq<Account>, answers: seq<Item?>)
    requires Ran(script, trace, answers) && |answers| == |script| && trace[0].Valid()
    ensures Follows(script, trace)
    ensures trace[|script|].l.byKey == After(trace[0].l.byKey, script)
    ensures trace[|script|].l.order == ListAfter(trace[0].l.order, script)
    ensures forall i | 0 <= i < |script| :: answers[i] == Answer(After(trace[0].l.byKey, script[..i]), script[i])
  {
    assert Shown(0);
    RunsAs(script, trace, |script|);
    assert script[..|script|] == script;
    forall i | 0 <= i < |script| ensures answers[i] == Answer(After(trace[0].l.byKey, script[..i]), script[i]) {
      RunsAs(script, trace, i);
    }
  }

  // ---- giving up doubling

  // the action takes the last item out of the table, or finds none in it
  ghost predicate Empties(a: Action, t: Account) {
    !a.Look? && (t.l.order == [] || (|t.l.order| == 1 && t.l.order[0].key == a.Key()))
  }

  // the doublings since the table was last made, and whether each was ineffective
  ghost function Doublings(script: seq<Action>, trace: seq<Account>): seq<bool>
    requires |trace| == |script| + 1
  {
    if script == [] then []
    else
      var n := |script| - 1;
      var log := Doublings(script[..n], trace[..n + 1]);
      if Empties(script[n], trace[n]) then []
      else if trace[n + 1].l.log2 > trace[n].l.log2 then log + [trace[n + 1].Ineffective()]
      else log
  }

  predicate BothAt(log: seq<bool>, i: nat) {
    i + 1 < |log| && log[i] && log[i + 1]
  }

  ghost predicate TwiceInARow(log: seq<bool>) {
    exists i :: BothAt(log, i)
  }

  // how many of the last doublings were ineffective
  function Trailing(log: seq<bool>): nat {
    if log == [] || !log[|log| - 1] then 0 else Trailing(log[..|log| - 1]) + 1
  }

  lemma TwiceMore(log: seq<bool>, bad: bool)
    requires !TwiceInARow(log)
    ensures Trailing(log + [bad]) == if bad then Trailing(log) + 1 else 0
    ensures TwiceInARow(log + [bad]) <==> Trailing(log + [bad]) > 1
  {
    var all := log + [bad];
    assert all[..|log|] == log;
    if Trailing(all) > 1 {
      assert Trailing(log) > 0;
      assert BothAt(all, |log| - 1);
    }
    forall i: nat | i + 1 < |log| ensures !BothAt(all, i) { assert !BothAt(log, i); }
  }

  // what the fields say of the doublings so far
  ghost predicate Judged(t: Account, log: seq<bool>) {
    && t.Valid() && t.ineff == Trailing(log) && (t.noexpand <==> TwiceInARow(log))
    && (t.l.order == [] ==> t == NoTable(t.l.hash))
  }

  // without an item there is no key
  lemma NoKeys(t: Account)
    requires t.Valid()
    ensures t.l.order == [] ==> t.l.byKey == map[]
    ensures |t.l.order| == 1 ==> t.l.byKey.Keys == {t.l.order[0].key}
  {
    var l := t.l;
    forall k | k in l.byKey ensures |l.order| > 0 && (|l.order| == 1 ==> k == l.order[0].key) { assert l.KeyOK(k) && l.PlaceOK(l.byKey[k]); }
    if |l.order| == 1 { assert l.NthOK(0) && l.PlaceOK(l.order[0]); }
  }

  lemma WithoutJudged(t: Account, key: seq<byte>, log: seq<bool>)
    requires Judged(t, log)
    ensures Judged(t.Without(key), if Empties(Drop(key), t) then [] else log)
    ensures Empties(Drop(key), t) ==> t.Without(key) == NoTable(t.l.hash)
    ensures !Empties(Drop(key), t) ==> t.Without(key).l.log2 == t.l.log2 && t.Without(key).l.order != []
  {
    NoKeys(t);
    EmptyValid(t.l.hash);
    if key in t.l.byKey {
      var p := t.l.byKey[key];
      assert t.l.KeyOK(key) && t.l.PlaceOK(p);
      t.LessValid(p);
    }
  }

  lemma AddsJudged(t: Account, p: Item, t': Account, log: seq<bool>)
    requires Judged(t, log) && t.Adds(p, t') && (t.l.order == [] ==> log == [])
    ensures Judged(t', if t'.l.log2 > t.l.log2 then log + [t'.Ineffective()] else log)
    ensures t.l.order == [] ==> t'.l.log2 == t.l.log2
  {
    t.AddsValid(p, t');
    if !TwiceInARow(log) { TwiceMore(log, t'.Ineffective()); }
  }

  // From an empty table on, in any script: doubling is given up exactly if two successive doublings of the
  // table were both ineffective.
  lemma {:induction false} GivenUpIff(script: seq<Action>, trace: seq<Account>, hash: seq<byte> -> nat)
    requires Follows(script, trace) && trace[0] == NoTable(hash)
    ensures Judged(trace[|script|], Doublings(script, trace))
    ensures trace[|script|].noexpand <==> TwiceInARow(Doublings(script, trace))
    decreases |script|
  {
    if script == [] {
    } else {
      var n := |script| - 1;
      var s, ts := script[..n], trace[..n + 1];
      FollowsBefore(script, trace, n);
      GivenUpIff(s, ts, hash);
      var a, t, t', log := script[n], trace[n], trace[n + 1], Doublings(s, ts);
      assert Acts(a, t, t');
      JudgedOn(a, t, t', log);
    }
  }

  lemma JudgedOn(a: Action, t: Account, t': Account, log: seq<bool>)
    requires Acts(a, t, t') && Judged(t, log)
    ensures Judged(t', if Empties(a, t) then [] else if t'.l.log2 > t.l.log2 then log + [t'.Ineffective()] else log)
  {
    WithoutJudged(t, a.Key(), log);
    match a
    case Put(item) => AddsJudged(t.Without(item.key), item, t', if Empties(a, t) then [] else log);
    case Drop(_) =>
    case Look(_) =>
  }
}
