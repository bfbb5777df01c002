/**
 `ACLDescribeSelectorCommandRules`: rules that rebuild a selector, and the proof that
 they do -- the bitmap exactly, and every decision on every command.
 */
module AclDescribe {
  import opened Common
  import opened Acl

  // ---------------------------------------------------------- the single-command pass

  /** Subcommands of `name` whose bits differ from the user's. */
  function SyncSubs(name: string, subs: seq<Sub>, s: Selector, fake: Selector): (seq<Rule>, Selector)
    decreases |subs|
  {
    if subs == [] then ([], fake)
    else
      var sub := subs[0];
      var wanted := sub.id in s.bits;
      var differs := wanted != (sub.id in fake.bits);
      var next := if differs then ChangePerm(fake, sub.id, [], wanted) else fake;
      var (rest, last) := SyncSubs(name, subs[1..], s, next);
      ((if differs then [if wanted then AllowPair(name, sub.name) else DenyPair(name, sub.name)] else []) + rest, last)
  }

  function ArgRules(name: string, args: seq<string>): (rules: seq<Rule>)
    ensures |rules| == |args|
  {
    seq(|args|, i requires 0 <= i < |args| => AllowPair(name, args[i]))
  }

  /** The command itself, its subcommands, and its first arguments when it is denied. */
  function SyncCommand(cmd: Command, s: Selector, fake: Selector): (seq<Rule>, Selector) {
    var wanted := cmd.id in s.bits;
    var differs := wanted != (cmd.id in fake.bits);
    var top := if differs then [if wanted then Allow(cmd.name) else Deny(cmd.name)] else [];
    var (subs, last) := SyncSubs(cmd.name, cmd.subs, s, if differs then Change(fake, cmd, wanted) else fake);
    (top + subs + (if wanted then [] else ArgRules(cmd.name, ArgsOf(s, cmd.id))), last)
  }

  function SyncTable(table: Table, s: Selector, fake: Selector): (seq<Rule>, Selector)
    decreases |table|
  {
    if table == [] then ([], fake)
    else
      var (rules, next) := SyncCommand(table[0], s, fake);
      var (rest, last) := SyncTable(table[1..], s, next);
      (rules + rest, last)
  }

  // ------------------------------------------------------ rebuilding, command by command

  /** `r` agrees with `s` on the commands before `i` and on the bits that belong to no command. */
  ghost predicate Synced(table: Table, s: Selector, r: Selector, i: nat)
    requires i <= |table|
  {
    r.bits <= AllBits()
    && (forall j, id :: 0 <= j < i && id in IdsOf(table[j]) ==> (id in r.bits <==> id in s.bits))
    && (forall id :: 0 <= id < BITS && id !in Ids(table) ==> (id in r.bits <==> id in s.bits))
    && (forall id :: id in r.firstArgs ==> exists j :: 0 <= j < i && table[j].id == id)
    && (forall j :: 0 <= j < i ==> ArgsOf(r, table[j].id) == if table[j].id in s.bits then [] else ArgsOf(s, table[j].id))
  }

  /** Changes of permission act on the bits alone. */
  lemma {:induction false} SetBitsOnBits(a: Selector, b: Selector, ids: seq<nat>, value: bool)
    requires a.bits == b.bits
    ensures SetBits(a, ids, value).bits == SetBits(b, ids, value).bits
    decreases |ids|
  {
    if ids != [] { SetBitsOnBits(SetBit(a, ids[0], value), SetBit(b, ids[0], value), ids[1..], value); }
  }

  lemma ChangePermOnBits(a: Selector, b: Selector, id: nat, subs: seq<nat>, value: bool)
    requires a.bits == b.bits
    ensures ChangePerm(a, id, subs, value).bits == ChangePerm(b, id, subs, value).bits
  {
    var a', b' := SetBit(a, id, value), SetBit(b, id, value);
    SetBitsOnBits(a'.(firstArgs := a'.firstArgs - {id}), b'.(firstArgs := b'.firstArgs - {id}), subs, value);
  }

  lemma ApplyOne(table: Table, r: Selector, rule: Rule)
    ensures ApplyAll(table, r, [rule]) == Apply(table, r, rule)
  {
    hide Apply;
    var o := Apply(table, r, rule);
    if o.Done? { assert ApplyAll(table, o.selector, []) == o; }
  }

  /** The pass over the subcommands of `cmd` fixes their bits and touches nothing else. */
  lemma {:induction false} SyncSubsWorks(table: Table, cmd: Command, k: nat, s: Selector, fake: Selector, r: Selector) returns (t: Selector)
    requires Find(table, cmd.name) == Some(cmd) && DistinctSubs(cmd.subs) && k <= |cmd.subs| && r.bits == fake.bits
    requires forall j :: 0 <= j < |cmd.subs| ==> cmd.subs[j].name != "" && cmd.subs[j].id < BITS && cmd.subs[j].id !in r.firstArgs
    requires forall j :: 0 <= j < k ==> (cmd.subs[j].id in r.bits <==> cmd.subs[j].id in s.bits)
    ensures var (rules, last) := SyncSubs(cmd.name, cmd.subs[k..], s, fake);
            ApplyAll(table, r, rules) == Done(t) && t.bits == last.bits
    ensures TouchesOnly(r, t, Members(SubIds(cmd.subs))) && t.firstArgs == r.firstArgs
    ensures forall j :: 0 <= j < |cmd.subs| ==> (cmd.subs[j].id in t.bits <==> cmd.subs[j].id in s.bits)
    decreases |cmd.subs| - k
  {
    hide TouchesOnly, ChangePerm, Find, Apply, ApplyAll, Members, SubIds, DistinctSubs;
    var subs := cmd.subs[k..];
    if subs == [] {
      NoRules(table, r);
      t := r;
      TouchesNothing(r);
      TouchesMore(r, r, {}, Members(SubIds(cmd.subs)));
    } else {
      var sub := cmd.subs[k];
      assert subs[0] == sub && subs[1..] == cmd.subs[k + 1..];
      var wanted := sub.id in s.bits;
      if wanted == (sub.id in fake.bits) {
        t := SyncSubsWorks(table, cmd, k + 1, s, fake, r);
        assert [] + SyncSubs(cmd.name, subs[1..], s, fake).0 == SyncSubs(cmd.name, subs[1..], s, fake).0;
      } else {
        var rule := if wanted then AllowPair(cmd.name, sub.name) else DenyPair(cmd.name, sub.name);
        var fake', r' := ChangePerm(fake, sub.id, [], wanted), ChangePerm(r, sub.id, [], wanted);
        SyncOneSub(table, cmd, k, s, fake, r);
        t := SyncSubsWorks(table, cmd, k + 1, s, fake', r');
        ApplyAllConcat(table, r, [rule], SyncSubs(cmd.name, subs[1..], s, fake').0);
        TouchesTwice(r, r', t, Members(SubIds(cmd.subs)), Members(SubIds(cmd.subs)));
        assert Members(SubIds(cmd.subs)) + Members(SubIds(cmd.subs)) == Members(SubIds(cmd.subs));
      }
    }
  }

  lemma NoRules(table: Table, r: Selector)
    ensures ApplyAll(table, r, []) == Done(r)
  {
  }

  /** The rule for one subcommand whose bit differs. */
  lemma SyncOneSub(table: Table, cmd: Command, k: nat, s: Selector, fake: Selector, r: Selector)
    requires Find(table, cmd.name) == Some(cmd) && DistinctSubs(cmd.subs) && k < |cmd.subs| && r.bits == fake.bits
    requires cmd.subs[k].name != "" && cmd.subs[k].id < BITS && cmd.subs[k].id !in r.firstArgs
    requires forall j :: 0 <= j < k ==> (cmd.subs[j].id in r.bits <==> cmd.subs[j].id in s.bits)
    ensures var sub, wanted := cmd.subs[k], cmd.subs[k].id in s.bits;
            var r' := ChangePerm(r, sub.id, [], wanted);
            ApplyAll(table, r, [if wanted then AllowPair(cmd.name, sub.name) else DenyPair(cmd.name, sub.name)]) == Done(r')
            && r'.bits == ChangePerm(fake, sub.id, [], wanted).bits && r'.firstArgs == r.firstArgs
            && TouchesOnly(r, r', Members(SubIds(cmd.subs)))
            && forall j :: 0 <= j <= k ==> (cmd.subs[j].id in r'.bits <==> cmd.subs[j].id in s.bits)
  {
    hide TouchesOnly, ChangePerm, Find, Members, SubIds;
    var sub, wanted := cmd.subs[k], cmd.subs[k].id in s.bits;
    var rule := if wanted then AllowPair(cmd.name, sub.name) else DenyPair(cmd.name, sub.name);
    FindSubMember(cmd.subs, k);
    assert Apply(table, r, rule) == Done(ChangePerm(r, sub.id, [], wanted));
    ChangePermOnBits(r, fake, sub.id, [], wanted);
    SubChangeIsLocal(cmd, k, s, r);
    ApplyOne(table, r, rule);
  }

  lemma SubChangeIsLocal(cmd: Command, k: nat, s: Selector, r: Selector)
    requires DistinctSubs(cmd.subs) && k < |cmd.subs| && cmd.subs[k].id < BITS && cmd.subs[k].id !in r.firstArgs
    requires forall j :: 0 <= j < k ==> (cmd.subs[j].id in r.bits <==> cmd.subs[j].id in s.bits)
    ensures var r' := ChangePerm(r, cmd.subs[k].id, [], cmd.subs[k].id in s.bits);
            r'.firstArgs == r.firstArgs && TouchesOnly(r, r', Members(SubIds(cmd.subs)))
            && forall j :: 0 <= j <= k ==> (cmd.subs[j].id in r'.bits <==> cmd.subs[j].id in s.bits)
  {
    var id := cmd.subs[k].id;
    ChangePermTouches(r, id, [], id in s.bits);
    assert SubIds(cmd.subs)[k] == id;
    TouchesMore(r, ChangePerm(r, id, [], id in s.bits), {id} + Members([]), Members(SubIds(cmd.subs)));
  }

  /** Adding a duplicate-free list of first arguments one by one reproduces the list. */
  lemma {:induction false} AddArgsWorks(table: Table, cmd: Command, args: seq<string>, k: nat, r: Selector)
    requires Find(table, cmd.name) == Some(cmd) && cmd.subs == [] && k <= |args| && ArgsOf(r, cmd.id) == args[..k]
    requires forall j :: 0 <= j < |args| ==> args[j] != "" && !Listed(args[..j], args[j])
    ensures var o := ApplyAll(table, r, ArgRules(cmd.name, args)[k..]);
            o.Done? && o.selector.bits == r.bits && o.selector.allCommands == r.allCommands
            && ArgsOf(o.selector, cmd.id) == args
            && o.selector.firstArgs.Keys <= r.firstArgs.Keys + {cmd.id}
            && forall id :: id != cmd.id ==> ArgsOf(o.selector, id) == ArgsOf(r, id)
    decreases |args| - k
  {
    hide Listed, Find, Apply, AddFirstArg, ArgsOf;
    var rules := ArgRules(cmd.name, args)[k..];
    if k == |args| {
      assert args[..k] == args;
    } else {
      var r' := AddFirstArg(r, cmd.id, args[k]);
      assert rules[0] == AllowPair(cmd.name, args[k]) && rules[1..] == ArgRules(cmd.name, args)[k + 1..];
      AddArgWorks(table, cmd, args[k], r);
      assert args[..k] + [args[k]] == args[..k + 1];
      AddArgsWorks(table, cmd, args, k + 1, r');
    }
  }

  lemma AddArgWorks(table: Table, cmd: Command, arg: string, r: Selector)
    requires Find(table, cmd.name) == Some(cmd) && cmd.subs == [] && arg != "" && !Listed(ArgsOf(r, cmd.id), arg)
    ensures var t := AddFirstArg(r, cmd.id, arg);
            Apply(table, r, AllowPair(cmd.name, arg)) == Done(t) && t.bits == r.bits && t.allCommands == r.allCommands
            && ArgsOf(t, cmd.id) == ArgsOf(r, cmd.id) + [arg] && t.firstArgs.Keys <= r.firstArgs.Keys + {cmd.id}
            && forall id :: id != cmd.id ==> ArgsOf(t, id) == ArgsOf(r, id)
  {
    hide Listed, Find;
  }

  lemma ArgsBelong(table: Table, s: Selector, i: nat)
    requires TableOk(table) && SelectorOk(table, s) && i < |table| && table[i].id in s.firstArgs
    ensures table[i].subs == []
  {
    hide Ids, Below;
    var j :| 0 <= j < |table| && table[j].id == table[i].id && table[j].subs == [];
    assert table[i].id in IdsOf(table[i]) && table[j].id in IdsOf(table[j]);
  }

  /** The rule for the command's own bit, if one is needed. */
  lemma SyncTop(table: Table, cmd: Command, s: Selector, fake: Selector, r: Selector) returns (t: Selector)
    requires Find(table, cmd.name) == Some(cmd) && r.bits == fake.bits && cmd.id < BITS && cmd.id !in r.firstArgs
    ensures var wanted := cmd.id in s.bits;
            var differs := wanted != (cmd.id in fake.bits);
            ApplyAll(table, r, if differs then [if wanted then Allow(cmd.name) else Deny(cmd.name)] else []) == Done(t)
            && t.bits == (if differs then Change(fake, cmd, wanted) else fake).bits
    ensures TouchesOnly(r, t, IdsOf(cmd)) && t.firstArgs == r.firstArgs && (cmd.id in t.bits <==> cmd.id in s.bits)
  {
    hide TouchesOnly, Find, ChangePerm;
    var wanted := cmd.id in s.bits;
    t := r;
    if wanted != (cmd.id in fake.bits) {
      t := Change(r, cmd, wanted);
      ApplyOne(table, r, if wanted then Allow(cmd.name) else Deny(cmd.name));
      ChangeTouches(r, cmd, wanted);
      ChangePermOnBits(r, fake, cmd.id, SubIds(cmd.subs), wanted);
    } else {
      TouchesNothing(r);
      TouchesMore(r, r, {}, IdsOf(cmd));
    }
  }

  lemma FreshCommand(table: Table, s: Selector, r: Selector, i: nat)
    requires TableOk(table) && i < |table| && Synced(table, s, r, i)
    ensures Find(table, table[i].name) == Some(table[i]) && DistinctSubs(table[i].subs)
    ensures table[i].id < BITS && table[i].id !in r.firstArgs
    ensures forall j :: 0 <= j < |table[i].subs| ==> table[i].subs[j].id < BITS && table[i].subs[j].id !in r.firstArgs
  {
    hide Find, Ids, Below;
    FindMember(table, i);
    forall j | 0 <= j < i ensures table[j].id !in IdsOf(table[i]) {
      assert table[j].id in IdsOf(table[j]);
    }
    assert table[i].id in IdsOf(table[i]);
    forall j | 0 <= j < |table[i].subs| ensures table[i].subs[j].id in IdsOf(table[i]) {
      assert SubIds(table[i].subs)[j] == table[i].subs[j].id;
    }
  }

  /** One command done: everything done before stays done. */
  lemma SyncedNext(table: Table, s: Selector, r: Selector, t: Selector, i: nat)
    requires TableOk(table) && i < |table| && Synced(table, s, r, i)
    requires TouchesOnly(r, t.(firstArgs := r.firstArgs), IdsOf(table[i]))
    requires forall id :: id in IdsOf(table[i]) ==> (id in t.bits <==> id in s.bits)
    requires forall id :: id != table[i].id ==> ArgsOf(t, id) == ArgsOf(r, id)
    requires t.firstArgs.Keys <= r.firstArgs.Keys + {table[i].id}
    requires ArgsOf(t, table[i].id) == if table[i].id in s.bits then [] else ArgsOf(s, table[i].id)
    ensures Synced(table, s, t, i + 1)
  {
    hide Ids, Below, ArgsOf;
    IdsContain(table, i);
    forall j, id | 0 <= j < i + 1 && id in IdsOf(table[j]) ensures id in t.bits <==> id in s.bits {
      if j < i { assert IdsOf(table[j]) !! IdsOf(table[i]); }
    }
    forall j | 0 <= j < i ensures table[j].id != table[i].id {
      assert table[j].id in IdsOf(table[j]) && table[i].id in IdsOf(table[i]);
    }
  }

  lemma SyncCommandWorks(table: Table, s: Selector, fake: Selector, r: Selector, i: nat) returns (t: Selector)
    requires TableOk(table) && SelectorOk(table, s) && i < |table| && Synced(table, s, r, i) && r.bits == fake.bits
    ensures var (rules, last) := SyncCommand(table[i], s, fake);
            ApplyAll(table, r, rules) == Done(t) && t.bits == last.bits
    ensures Synced(table, s, t, i + 1)
  {
    hide Synced, TableOk, SelectorOk, TouchesOnly, Find, SyncSubs, Change, ApplyAll, ArgRules;
    var cmd := table[i];
    FreshCommand(table, s, r, i);
    var wanted := cmd.id in s.bits;
    var differs := wanted != (cmd.id in fake.bits);
    var top := if differs then [if wanted then Allow(cmd.name) else Deny(cmd.name)] else [];
    var fake1 := if differs then Change(fake, cmd, wanted) else fake;
    var a := SyncTop(table, cmd, s, fake, r);
    assert cmd.subs[0..] == cmd.subs;
    var b := SyncSubsWorks(table, cmd, 0, s, fake1, a);
    var subs := SyncSubs(cmd.name, cmd.subs, s, fake1).0;
    ApplyAllConcat(table, r, top, subs);
    SyncBits(cmd, s, r, a, b);
    if wanted {
      t := b;
      assert top + subs + [] == top + subs;
    } else {
      t := SyncArgs(table, s, b, i);
      ApplyAllConcat(table, r, top + subs, ArgRules(cmd.name, ArgsOf(s, cmd.id)));
    }
    SyncedNext(table, s, r, t, i);
  }

  /** After both passes all bits of the command agree with the user's and no others changed. */
  lemma SyncBits(cmd: Command, s: Selector, r: Selector, a: Selector, b: Selector)
    requires TouchesOnly(r, a, IdsOf(cmd)) && a.firstArgs == r.firstArgs && (cmd.id in a.bits <==> cmd.id in s.bits)
    requires TouchesOnly(a, b, Members(SubIds(cmd.subs))) && b.firstArgs == a.firstArgs
    requires forall j :: 0 <= j < |cmd.subs| ==> (cmd.subs[j].id in b.bits <==> cmd.subs[j].id in s.bits)
    ensures TouchesOnly(r, b, IdsOf(cmd))
    ensures forall id :: id in IdsOf(cmd) ==> (id in b.bits <==> id in s.bits)
  {
    TouchesTwice(r, a, b, IdsOf(cmd), Members(SubIds(cmd.subs)));
    assert IdsOf(cmd) + Members(SubIds(cmd.subs)) == IdsOf(cmd);
    forall id | id in IdsOf(cmd) ensures id in b.bits <==> id in s.bits {
      if id in SubIds(cmd.subs) {
        var j :| 0 <= j < |SubIds(cmd.subs)| && SubIds(cmd.subs)[j] == id;
        assert cmd.subs[j].id == id;
      }
    }
  }

  lemma SyncArgs(table: Table, s: Selector, r: Selector, i: nat) returns (t: Selector)
    requires TableOk(table) && SelectorOk(table, s) && i < |table| && Find(table, table[i].name) == Some(table[i])
    requires table[i].id !in r.firstArgs
    ensures ApplyAll(table, r, ArgRules(table[i].name, ArgsOf(s, table[i].id))) == Done(t)
    ensures t.bits == r.bits && t.allCommands == r.allCommands && t.firstArgs.Keys <= r.firstArgs.Keys + {table[i].id}
    ensures ArgsOf(t, table[i].id) == ArgsOf(s, table[i].id)
    ensures forall id :: id != table[i].id ==> ArgsOf(t, id) == ArgsOf(r, id)
  {
    hide Find, Ids, Below, Listed;
    var args, rules := ArgsOf(s, table[i].id), ArgRules(table[i].name, ArgsOf(s, table[i].id));
    if args == [] {
      t := r;
    } else {
      ArgsBelong(table, s, i);
      AddArgsWorks(table, table[i], args, 0, r);
      assert rules[0..] == rules;
      t := ApplyAll(table, r, rules).selector;
    }
  }

  lemma {:induction false} SyncTableWorks(table: Table, s: Selector, fake: Selector, r: Selector, i: nat) returns (t: Selector)
    requires TableOk(table) && SelectorOk(table, s) && i <= |table| && Synced(table, s, r, i) && r.bits == fake.bits
    ensures var (rules, last) := SyncTable(table[i..], s, fake);
            ApplyAll(table, r, rules) == Done(t) && t.bits == last.bits
    ensures Synced(table, s, t, |table|)
    decreases |table| - i
  {
    hide Synced, TableOk, SelectorOk, SyncCommand;
    if i == |table| {
      assert table[i..] == [];
      t := r;
    } else {
      assert table[i..][0] == table[i] && table[i..][1..] == table[i + 1..];
      var (rules, next) := SyncCommand(table[i], s, fake);
      var r' := SyncCommandWorks(table, s, fake, r, i);
      t := SyncTableWorks(table, s, next, r', i + 1);
      ApplyAllConcat(table, r, rules, SyncTable(table[i + 1..], s, next).0);
    }
  }

  // ------------------------------------------------------------------- the rule list

  /** The rules succeed on a fresh selector, give the same bitmap, and decide every command the same
      way whatever its arguments. */
  ghost predicate Rebuilds(table: Table, s: Selector, rules: seq<Rule>) {
    var o := ApplyAll(table, FRESH, rules);
    o.Done? && o.selector.bits == s.bits
    && (forall i, argv :: 0 <= i < |table| ==>
          (Permitted(o.selector, table[i].id, table[i].noAuth, false, argv) <==> Permitted(s, table[i].id, table[i].noAuth, false, argv)))
    && (forall i, j, argv :: 0 <= i < |table| && 0 <= j < |table[i].subs| ==>
          (Permitted(o.selector, table[i].subs[j].id, table[i].subs[j].noAuth, true, argv)
           <==> Permitted(s, table[i].subs[j].id, table[i].subs[j].noAuth, true, argv)))
  }

  /** Category rules only, valid ones. */
  predicate Categories(rules: seq<Rule>) {
    forall i :: 0 <= i < |rules| ==>
      (rules[i].AllowCategory? || rules[i].DenyCategory?) && rules[i].cat < CATEGORIES
  }

  function Opening(s: Selector): Rule { if RESERVED in s.bits then AllowAll else DenyAll }

  /** After the opening rule and any category rules, only bits of known commands can differ. */
  lemma {:induction false} PrefixWorks(table: Table, s: Selector, cats: seq<Rule>) returns (r: Selector)
    requires TableOk(table) && SelectorOk(table, s) && Categories(cats)
    ensures ApplyAll(table, FRESH, [Opening(s)] + cats) == Done(r)
    ensures Synced(table, s, r, 0) && r.firstArgs == map[]
    decreases |cats|
  {
    hide TouchesOnly, Category, Below;
    if cats == [] {
      assert [Opening(s)] + cats == [Opening(s)];
      ApplyOne(table, FRESH, Opening(s));
      r := Apply(table, FRESH, Opening(s)).selector;
    } else {
      var n := |cats| - 1;
      var q := PrefixWorks(table, s, cats[..n]);
      assert [Opening(s)] + cats == [Opening(s)] + cats[..n] + [cats[n]];
      ApplyAllConcat(table, FRESH, [Opening(s)] + cats[..n], [cats[n]]);
      ApplyOne(table, q, cats[n]);
      var value := cats[n].AllowCategory?;
      CategoryTouches(q, table, cats[n].cat, value);
      r := Category(q, table, cats[n].cat, value);
      TouchedOutside(q, r, Ids(table));
    }
  }

  lemma TouchedOutside(q: Selector, r: Selector, ids: set<nat>)
    requires TouchesOnly(q, r, ids) && q.bits <= AllBits() && q.firstArgs == map[]
    ensures r.bits <= AllBits() && r.firstArgs == map[] && forall id :: id !in ids ==> (id in r.bits <==> id in q.bits)
  {}

  /** When all commands are in step, bitmap and decisions agree. */
  lemma SyncedRebuilds(table: Table, s: Selector, t: Selector, rules: seq<Rule>)
    requires TableOk(table) && SelectorOk(table, s) && SelectorOk(table, t) && Synced(table, s, t, |table|)
    requires ApplyAll(table, FRESH, rules) == Done(t)
    ensures Rebuilds(table, s, rules)
  {
    hide Below, Ids, Listed, ApplyAll;
    assert t.bits == s.bits by {
      forall id: nat ensures id in t.bits <==> id in s.bits {
        if id in Ids(table) {
          var i := IdsComeFrom(table, id);
        }
      }
    }
    forall i | 0 <= i < |table| ensures table[i].id < BITS { assert table[i].id in IdsOf(table[i]); }
    forall i, j | 0 <= i < |table| && 0 <= j < |table[i].subs|
      ensures table[i].subs[j].id < BITS && ArgsOf(s, table[i].subs[j].id) == ArgsOf(t, table[i].subs[j].id) == []
    {
      SubHasNoArgs(table, s, i, j);
      SubHasNoArgs(table, t, i, j);
    }
  }

  lemma SubHasNoArgs(table: Table, s: Selector, i: nat, j: nat)
    requires TableOk(table) && SelectorOk(table, s) && i < |table| && j < |table[i].subs|
    ensures table[i].subs[j].id < BITS && table[i].subs[j].id !in s.firstArgs
  {
    hide Below, Ids, Listed;
    var id := table[i].subs[j].id;
    assert SubIds(table[i].subs)[j] == id;
    assert id in IdsOf(table[i]);
    forall k | 0 <= k < |table| && k != i ensures table[k].id != id {
      assert table[k].id in IdsOf(table[k]);
    }
  }

  /** The list "opening rule, any categories, single commands" rebuilds the selector, and the bitmap
      predicted with the fake selector is the user's: the panic at the end is never reached. */
  lemma DescriptionWorks(table: Table, s: Selector, cats: seq<Rule>, fake: Selector)
    requires TableOk(table) && SelectorOk(table, s) && Categories(cats)
    requires ApplyAll(table, FRESH, [Opening(s)] + cats) == Done(fake)
    ensures var (single, last) := SyncTable(table, s, fake);
            Rebuilds(table, s, [Opening(s)] + cats + single) && last.bits == s.bits
  {
    hide Synced, TableOk, SelectorOk, SyncTable, ApplyAll;
    var r := PrefixWorks(table, s, cats);
    assert table[0..] == table;
    var t := SyncTableWorks(table, s, fake, r, 0);
    var single := SyncTable(table, s, fake).0;
    ApplyAllConcat(table, FRESH, [Opening(s)] + cats, single);
    FreshOk(table);
    EveryRunKeeps(table, FRESH, [Opening(s)] + cats + single);
    SyncedRebuilds(table, s, t, [Opening(s)] + cats + single);
  }
}
