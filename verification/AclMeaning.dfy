/**
 What ACL rules mean, command by command: which commands a category rule grants or denies, what a
 first-argument rule lets through, and when a rule is refused.
 */
module AclMeaning {
  import opened Common
  import opened Acl

  // ------------------------------------------------------------ what a change amounts to

  /** `t` is `s` with the bits `ids` set or cleared and the first arguments of `args` dropped. */
  ghost predicate Becomes(s: Selector, t: Selector, ids: set<nat>, args: set<nat>, value: bool) {
    (forall id :: id in t.bits <==> if id in ids && id < BITS then value else id in s.bits)
    && t.allCommands == (s.allCommands && (value || forall id :: id in ids ==> id >= BITS))
    && t.firstArgs == s.firstArgs - args
  }

  lemma BecomesSame(s: Selector, value: bool)
    ensures Becomes(s, s, {}, {}, value)
  {
    assert s.firstArgs - {} == s.firstArgs;
  }

  lemma BecomesTwice(s: Selector, t: Selector, u: Selector, a: set<nat>, x: set<nat>, b: set<nat>, y: set<nat>, value: bool)
    requires Becomes(s, t, a, x, value) && Becomes(t, u, b, y, value)
    ensures Becomes(s, u, a + b, x + y, value)
  {
    assert s.firstArgs - (x + y) == s.firstArgs - x - y;
  }

  lemma SetBitIs(s: Selector, id: nat, value: bool)
    ensures Becomes(s, SetBit(s, id, value), {id}, {}, value)
  {
    assert s.firstArgs - {} == s.firstArgs;
    assert id in {id};
  }

  lemma {:induction false} SetBitsIs(s: Selector, ids: seq<nat>, value: bool)
    ensures Becomes(s, SetBits(s, ids, value), Members(ids), {}, value)
    decreases |ids|
  {
    hide Becomes, SetBit;
    if ids == [] {
      BecomesSame(s, value);
      assert Members([]) == {};
    } else {
      var t := SetBit(s, ids[0], value);
      SetBitIs(s, ids[0], value);
      SetBitsIs(t, ids[1..], value);
      BecomesTwice(s, t, SetBits(t, ids[1..], value), {ids[0]}, {}, Members(ids[1..]), {}, value);
      assert Members(ids) == {ids[0]} + Members(ids[1..]) by { assert ids == [ids[0]] + ids[1..]; }
      var none: set<nat> := {};
      assert none + none == none;
    }
  }

  lemma ArgsDropped(s: Selector, id: nat, value: bool)
    ensures Becomes(s, s.(firstArgs := s.firstArgs - {id}), {}, {id}, value)
  {
  }

  lemma ChangePermIs(s: Selector, id: nat, subs: seq<nat>, value: bool)
    ensures Becomes(s, ChangePerm(s, id, subs, value), {id} + Members(subs), {id}, value)
  {
    hide Becomes, SetBit, SetBits, Members;
    var t := SetBit(s, id, value);
    var u := t.(firstArgs := t.firstArgs - {id});
    SetBitIs(s, id, value);
    ArgsDropped(t, id, value);
    BecomesTwice(s, t, u, {id}, {}, {}, {id}, value);
    SetBitsIs(u, subs, value);
    BecomesTwice(s, u, SetBits(u, subs, value), {id} + {}, {} + {id}, Members(subs), {}, value);
    assert {id} + {} + Members(subs) == {id} + Members(subs) && {} + {id} + {} == {id};
  }

  // ------------------------------------------------------------------------ categories

  /** The subcommands that a category rule reaches on their own account. */
  function OwnSubs(subs: seq<Sub>, cat: nat): set<nat> {
    if subs == [] then {}
    else (if !subs[0].fromModule && cat in subs[0].cats then {subs[0].id} else {}) + OwnSubs(subs[1..], cat)
  }

  lemma {:induction false} CategorySubsIs(s: Selector, subs: seq<Sub>, cat: nat, value: bool)
    ensures Becomes(s, CategorySubs(s, subs, cat, value), OwnSubs(subs, cat), OwnSubs(subs, cat), value)
    decreases |subs|
  {
    hide Becomes, ChangePerm;
    if subs == [] {
      BecomesSame(s, value);
    } else {
      var hit := !subs[0].fromModule && cat in subs[0].cats;
      var t := if hit then ChangePerm(s, subs[0].id, [], value) else s;
      var own := if hit then {subs[0].id} else {};
      if hit {
        ChangePermIs(s, subs[0].id, [], value);
        assert {subs[0].id} + Members([]) == own;
      } else {
        BecomesSame(s, value);
      }
      CategorySubsIs(t, subs[1..], cat, value);
      BecomesTwice(s, t, CategorySubs(t, subs[1..], cat, value), own, own, OwnSubs(subs[1..], cat), OwnSubs(subs[1..], cat), value);
    }
  }

  /** The ids of one command that a category rule reaches, and those whose first arguments it drops. */
  function Reached(cmd: Command, cat: nat): set<nat> {
    if cmd.fromModule then {} else (if cat in cmd.cats then IdsOf(cmd) else {}) + OwnSubs(cmd.subs, cat)
  }

  function Dropped(cmd: Command, cat: nat): set<nat> {
    if cmd.fromModule then {} else (if cat in cmd.cats then {cmd.id} else {}) + OwnSubs(cmd.subs, cat)
  }

  lemma CategoryCommandIs(s: Selector, cmd: Command, cat: nat, value: bool)
    ensures Becomes(s, CategoryCommand(s, cmd, cat, value), Reached(cmd, cat), Dropped(cmd, cat), value)
  {
    hide Becomes, ChangePerm, CategorySubs, OwnSubs, Members;
    if cmd.fromModule {
      BecomesSame(s, value);
    } else {
      var t := if cat in cmd.cats then Change(s, cmd, value) else s;
      if cat in cmd.cats { ChangePermIs(s, cmd.id, SubIds(cmd.subs), value); } else { BecomesSame(s, value); }
      CategorySubsIs(t, cmd.subs, cat, value);
      BecomesTwice(s, t, CategorySubs(t, cmd.subs, cat, value), if cat in cmd.cats then IdsOf(cmd) else {},
                   if cat in cmd.cats then {cmd.id} else {}, OwnSubs(cmd.subs, cat), OwnSubs(cmd.subs, cat), value);
    }
  }

  function ReachedIn(table: Table, cat: nat): set<nat> {
    if table == [] then {} else Reached(table[0], cat) + ReachedIn(table[1..], cat)
  }

  function DroppedIn(table: Table, cat: nat): set<nat> {
    if table == [] then {} else Dropped(table[0], cat) + DroppedIn(table[1..], cat)
  }

  lemma {:induction false} CategoryIs(s: Selector, table: Table, cat: nat, value: bool)
    ensures Becomes(s, Category(s, table, cat, value), ReachedIn(table, cat), DroppedIn(table, cat), value)
    decreases |table|
  {
    hide Becomes, CategoryCommand, Reached, Dropped;
    if table == [] {
      BecomesSame(s, value);
    } else {
      var t := CategoryCommand(s, table[0], cat, value);
      CategoryCommandIs(s, table[0], cat, value);
      CategoryIs(t, table[1..], cat, value);
      BecomesTwice(s, t, Category(t, table[1..], cat, value), Reached(table[0], cat), Dropped(table[0], cat),
                   ReachedIn(table[1..], cat), DroppedIn(table[1..], cat), value);
    }
  }

  // ------------------------------------------------------------- reading the sets off the table

  /** A category rule is about this command. */
  predicate About(cmd: Command, cat: nat) { !cmd.fromModule && cat in cmd.cats }

  /** It is about this subcommand, through its container or on its own account. */
  predicate AboutSub(cmd: Command, sub: Sub, cat: nat) {
    !cmd.fromModule && (cat in cmd.cats || (!sub.fromModule && cat in sub.cats))
  }

  lemma {:induction false} OwnSubsAre(subs: seq<Sub>, cat: nat)
    ensures forall id :: id in OwnSubs(subs, cat) <==>
              exists k :: 0 <= k < |subs| && subs[k].id == id && !subs[k].fromModule && cat in subs[k].cats
  {
    if subs != [] {
      OwnSubsAre(subs[1..], cat);
      forall id ensures id in OwnSubs(subs, cat) <==>
                  exists k :: 0 <= k < |subs| && subs[k].id == id && !subs[k].fromModule && cat in subs[k].cats
      {
        if k :| 0 <= k < |subs| && subs[k].id == id && !subs[k].fromModule && cat in subs[k].cats {
          if k > 0 { assert subs[1..][k - 1] == subs[k]; }
        }
        if id in OwnSubs(subs[1..], cat) {
          var k :| 0 <= k < |subs[1..]| && subs[1..][k].id == id && !subs[1..][k].fromModule && cat in subs[1..][k].cats;
          assert subs[k + 1].id == id;
        }
      }
    }
  }

  lemma SubIdAt(cmd: Command, k: nat)
    requires k < |cmd.subs|
    ensures cmd.subs[k].id in IdsOf(cmd)
  {
    assert SubIds(cmd.subs)[k] == cmd.subs[k].id;
  }

  lemma ReachedIs(cmd: Command, cat: nat)
    requires DistinctSubs(cmd.subs) && cmd.id !in SubIds(cmd.subs)
    ensures Reached(cmd, cat) <= IdsOf(cmd) && Dropped(cmd, cat) <= IdsOf(cmd)
    ensures (cmd.id in Reached(cmd, cat) <==> About(cmd, cat)) && (cmd.id in Dropped(cmd, cat) <==> About(cmd, cat))
    ensures forall k :: 0 <= k < |cmd.subs| ==> (cmd.subs[k].id in Reached(cmd, cat) <==> AboutSub(cmd, cmd.subs[k], cat))
  {
    OwnSubsAre(cmd.subs, cat);
    forall id | id in OwnSubs(cmd.subs, cat) ensures id in IdsOf(cmd) && id != cmd.id {
      var k :| 0 <= k < |cmd.subs| && cmd.subs[k].id == id && !cmd.subs[k].fromModule && cat in cmd.subs[k].cats;
      assert SubIds(cmd.subs)[k] == id;
    }
    forall k | 0 <= k < |cmd.subs| ensures cmd.subs[k].id in Reached(cmd, cat) <==> AboutSub(cmd, cmd.subs[k], cat) {
      SubIdAt(cmd, k);
    }
  }

  /** Ids of one command are reached through that command only. */
  lemma {:induction false} ReachedAt(table: Table, cat: nat, j: nat, id: nat)
    requires TableOk(table) && j < |table| && id in IdsOf(table[j])
    ensures id in ReachedIn(table, cat) <==> id in Reached(table[j], cat)
    ensures id in DroppedIn(table, cat) <==> id in Dropped(table[j], cat)
  {
    hide IdsOf, Reached, Dropped, DistinctSubs;
    ReachedIs(table[0], cat);
    if j > 0 {
      assert table[1..][j - 1] == table[j];
      ReachedAt(table[1..], cat, j - 1, id);
    } else {
      NotReached(table[1..], cat, id, table[0]);
    }
  }

  lemma {:induction false} NotReached(table: Table, cat: nat, id: nat, other: Command)
    requires TableOk(table) && id in IdsOf(other) && forall j :: 0 <= j < |table| ==> IdsOf(other) !! IdsOf(table[j])
    ensures id !in ReachedIn(table, cat) && id !in DroppedIn(table, cat)
  {
    hide IdsOf, Reached, Dropped, DistinctSubs;
    if table != [] {
      ReachedIs(table[0], cat);
      NotReached(table[1..], cat, id, other);
    }
  }

  /** What a category rule leaves of a selector, command by command: the bits it reaches are set or cleared, all
      others stay, and commands in the category lose their first arguments. */
  ghost predicate CategoryEffect(table: Table, s: Selector, t: Selector, cat: nat, value: bool) {
    (forall j :: 0 <= j < |table| ==>
       (table[j].id in t.bits <==> if About(table[j], cat) then value else table[j].id in s.bits))
    && (forall j, k :: 0 <= j < |table| && 0 <= k < |table[j].subs| ==>
       (table[j].subs[k].id in t.bits
        <==> if AboutSub(table[j], table[j].subs[k], cat) then value else table[j].subs[k].id in s.bits))
    && (forall j :: 0 <= j < |table| ==> ArgsOf(t, table[j].id) == if About(table[j], cat) then [] else ArgsOf(s, table[j].id))
    && (forall id :: id !in Ids(table) ==> (id in t.bits <==> id in s.bits))
  }

  lemma CategoryMeans(table: Table, s: Selector, cat: nat, value: bool)
    requires TableOk(table)
    ensures CategoryEffect(table, s, Category(s, table, cat, value), cat, value)
  {
    hide Category, ReachedIn, DroppedIn, Reached, Dropped, DistinctSubs, Ids;
    var t := Category(s, table, cat, value);
    CategoryIs(s, table, cat, value);
    forall j | 0 <= j < |table|
      ensures table[j].id in t.bits <==> if About(table[j], cat) then value else table[j].id in s.bits
      ensures ArgsOf(t, table[j].id) == if About(table[j], cat) then [] else ArgsOf(s, table[j].id)
    {
      ReachedIs(table[j], cat);
      assert table[j].id in IdsOf(table[j]);
      ReachedAt(table, cat, j, table[j].id);
    }
    forall j, k | 0 <= j < |table| && 0 <= k < |table[j].subs|
      ensures table[j].subs[k].id in t.bits
              <==> if AboutSub(table[j], table[j].subs[k], cat) then value else table[j].subs[k].id in s.bits
    {
      ReachedIs(table[j], cat);
      SubIdAt(table[j], k);
      ReachedAt(table, cat, j, table[j].subs[k].id);
    }
    ReachedKnown(table, cat);
  }

  lemma {:induction false} ReachedKnown(table: Table, cat: nat)
    requires TableOk(table)
    ensures ReachedIn(table, cat) <= Ids(table)
  {
    hide IdsOf, Reached, DistinctSubs;
    if table != [] {
      ReachedIs(table[0], cat);
      ReachedKnown(table[1..], cat);
    }
  }

  /** `+@category` grants exactly the commands and subcommands of the category and keeps ALLCOMMANDS. */
  lemma AllowCategoryMeans(table: Table, s: Selector, cat: nat)
    requires TableOk(table) && cat < CATEGORIES
    ensures var o := Apply(table, s, AllowCategory(cat));
            o.Done? && CategoryEffect(table, s, o.selector, cat, true) && o.selector.allCommands == s.allCommands
  {
    hide Category, CategoryEffect;
    CategoryMeans(table, s, cat, true);
    CategoryIs(s, table, cat, true);
  }

  /** `-@category` denies exactly those, and ALLCOMMANDS goes with the first of them. */
  lemma DenyCategoryMeans(table: Table, s: Selector, cat: nat)
    requires TableOk(table) && cat < CATEGORIES
    ensures var o := Apply(table, s, DenyCategory(cat));
            o.Done? && CategoryEffect(table, s, o.selector, cat, false)
            && (forall j :: 0 <= j < |table| && About(table[j], cat) ==> !o.selector.allCommands)
            && (forall j, k :: 0 <= j < |table| && 0 <= k < |table[j].subs| && AboutSub(table[j], table[j].subs[k], cat) ==>
                  !o.selector.allCommands)
  {
    hide Category, CategoryEffect, ReachedIn, DroppedIn, Reached, Dropped, DistinctSubs;
    CategoryMeans(table, s, cat, false);
    CategoryIs(s, table, cat, false);
    forall j | 0 <= j < |table|
      ensures About(table[j], cat) ==> table[j].id in ReachedIn(table, cat) && table[j].id < BITS
    {
      ReachedIs(table[j], cat);
      assert table[j].id in IdsOf(table[j]);
      ReachedAt(table, cat, j, table[j].id);
    }
    forall j, k | 0 <= j < |table| && 0 <= k < |table[j].subs|
      ensures AboutSub(table[j], table[j].subs[k], cat) ==> table[j].subs[k].id in ReachedIn(table, cat) && table[j].subs[k].id < BITS
    {
      ReachedIs(table[j], cat);
      SubIdAt(table[j], k);
      ReachedAt(table, cat, j, table[j].subs[k].id);
    }
  }

  // ------------------------------------------------------------------- first arguments

  /** After `+command|arg` a command that is denied otherwise is let through exactly with that first argument, in
      any case, or with one that was allowed before. */
  lemma FirstArgMeans(table: Table, s: Selector, cmd: Command, arg: string, x: string, rest: seq<string>)
    requires Find(table, cmd.name) == Some(cmd) && cmd.subs == [] && arg != "" && !s.allCommands && cmd.id !in s.bits
    ensures var o := Apply(table, s, AllowPair(cmd.name, arg));
            o.Done? && !Permitted(o.selector, cmd.id, false, false, [cmd.name])
            && (Permitted(o.selector, cmd.id, false, false, [cmd.name, x] + rest)
                <==> SameText(arg, x) || Permitted(s, cmd.id, false, false, [cmd.name, x] + rest))
  {
    hide Find, SameText;
    var args, t := ArgsOf(s, cmd.id), AddFirstArg(s, cmd.id, arg);
    var argv := [cmd.name, x] + rest;
    assert argv[1] == x;
    if Listed(args, arg) {
      var i :| 0 <= i < |args| && SameText(args[i], arg);
      if SameText(arg, x) { SameTextTwice(args[i], arg, x); }
    } else {
      ListedMore(args, arg, x);
    }
  }

  lemma SameTextTwice(a: string, b: string, c: string)
    requires SameText(a, b) && SameText(b, c)
    ensures SameText(a, c)
  {
  }

  lemma ListedMore(args: seq<string>, arg: string, x: string)
    ensures Listed(args + [arg], x) <==> Listed(args, x) || SameText(arg, x)
  {
    hide SameText;
    if Listed(args, x) {
      var i :| 0 <= i < |args| && SameText(args[i], x);
      assert (args + [arg])[i] == args[i];
    }
    if SameText(arg, x) { assert (args + [arg])[|args|] == arg; }
  }

  /** A subcommand is let through by its bit alone: no selector has first arguments for it. */
  lemma SubcommandMeans(table: Table, s: Selector, j: nat, k: nat, argv: seq<string>)
    requires TableOk(table) && SelectorOk(table, s) && j < |table| && k < |table[j].subs|
    ensures var sub := table[j].subs[k];
            Permitted(s, sub.id, sub.noAuth, true, argv) <==> s.allCommands || sub.noAuth || sub.id in s.bits
  {
    hide Ids, Listed, DistinctSubs;
    var sub := table[j].subs[k];
    SubIdAt(table[j], k);
    assert sub.id in SubIds(table[j].subs) by { assert SubIds(table[j].subs)[k] == sub.id; }
    forall i | 0 <= i < |table| && table[i].subs == [] ensures table[i].id != sub.id {
      assert table[i].id in IdsOf(table[i]);
    }
    NothingListed(if |argv| > 2 then argv[2] else "");
  }

  lemma NothingListed(x: string)
    ensures !Listed([], x)
  {
  }

  const SELECT: Command := Command("select", 7, {}, false, false, [])

  /** `+select|0` on a fresh selector: `select 0` is allowed, in any case, `select 1` and `select` are not. */
  lemma SelectZero()
    ensures var o := Apply([SELECT], FRESH, AllowPair("select", "0"));
            o.Done? && Permitted(o.selector, 7, false, false, ["select", "0"])
            && !Permitted(o.selector, 7, false, false, ["select", "1"]) && !Permitted(o.selector, 7, false, false, ["select"])
  {
    assert Find([SELECT], "select") == Some(SELECT);
    hide Apply, Find;
    assert "0"[0] != "1"[0];
    NothingListed("0");
    NothingListed("1");
    FirstArgMeans([SELECT], FRESH, SELECT, "0", "0", []);
    FirstArgMeans([SELECT], FRESH, SELECT, "0", "1", []);
    assert ["select", "0"] + [] == ["select", "0"] && ["select", "1"] + [] == ["select", "1"];
  }

  // --------------------------------------------------------------------------- refusals

  /** The rule names a command, or a subcommand of it, that the table does not have. */
  predicate NamesNothing(table: Table, rule: Rule) {
    match rule
    case AllowAll => false
    case DenyAll => false
    case Allow(name) => !Known(table, name)
    case Deny(name) => !Known(table, name)
    case AllowPair(name, arg) => !Known(table, name) || (arg != "" && IsContainer(table, name) && !KnownSub(table, name, arg))
    case AllowDeep(name, sub, _) => !KnownSub(table, name, sub)
    case DenyPair(name, sub) => !KnownSub(table, name, sub)
    case AllowCategory(cat) => cat >= CATEGORIES
    case DenyCategory(cat) => cat >= CATEGORIES
  }

  predicate Known(table: Table, name: string) { exists j :: 0 <= j < |table| && table[j].name == name }

  predicate IsContainer(table: Table, name: string) {
    exists j :: 0 <= j < |table| && table[j].name == name && table[j].subs != []
  }

  predicate KnownSub(table: Table, name: string, sub: string) {
    exists j, k :: 0 <= j < |table| && table[j].name == name && 0 <= k < |table[j].subs| && table[j].subs[k].name == sub
  }

  lemma {:induction false} FindIs(table: Table, name: string)
    ensures Find(table, name).Some? <==> Known(table, name)
    ensures Find(table, name).Some? ==> exists j :: 0 <= j < |table| && table[j] == Find(table, name).value && table[j].name == name
  {
    if table != [] && table[0].name != name {
      FindIs(table[1..], name);
      if j :| 0 <= j < |table| && table[j].name == name { assert table[1..][j - 1] == table[j]; }
    }
  }

  lemma {:induction false} FindSubIs(subs: seq<Sub>, name: string)
    ensures FindSub(subs, name).Some? <==> exists k :: 0 <= k < |subs| && subs[k].name == name
  {
    if subs != [] && subs[0].name != name {
      FindSubIs(subs[1..], name);
      if k :| 0 <= k < |subs| && subs[k].name == name { assert subs[1..][k - 1] == subs[k]; }
    }
  }

  lemma FoundIs(table: Table, name: string, sub: string)
    requires TableOk(table)
    ensures var cmd := Find(table, name);
            (cmd.Some? <==> Known(table, name))
            && (cmd.Some? ==> (cmd.value.subs != [] <==> IsContainer(table, name))
                              && (FindSub(cmd.value.subs, sub).Some? <==> KnownSub(table, name, sub)))
            && (cmd.None? ==> !KnownSub(table, name, sub))
  {
    hide Find, FindSub, DistinctSubs, IdsOf;
    FindIs(table, name);
    var cmd := Find(table, name);
    if cmd.Some? {
      var j :| 0 <= j < |table| && table[j] == cmd.value && table[j].name == name;
      FindSubIs(cmd.value.subs, sub);
      forall i | 0 <= i < |table| && i != j ensures table[i].name != name {
        if i < j { assert table[i].name != table[j].name; } else { assert table[j].name != table[i].name; }
      }
    }
  }

  /** A rule is refused, without any effect, exactly when it names something unknown, when its argument is empty, or
      when it is an argument of a subcommand; the error says which. */
  lemma RefusedWhen(table: Table, s: Selector, rule: Rule)
    requires TableOk(table)
    ensures Apply(table, s, rule) == Refused(ENOENT) <==> NamesNothing(table, rule)
    ensures Apply(table, s, rule) == Refused(EINVAL) <==> rule.AllowPair? && rule.arg == "" && Known(table, rule.name)
    ensures Apply(table, s, rule) == Refused(ECHILD) <==> rule.AllowDeep? && KnownSub(table, rule.name, rule.sub)
  {
    hide Find, FindSub, Known, KnownSub, IsContainer, TableOk, ChangePerm, Change, Category, AddFirstArg;
    match rule
    case Allow(name) => FoundIs(table, name, "");
    case Deny(name) => FoundIs(table, name, "");
    case AllowPair(name, arg) => FoundIs(table, name, arg);
    case AllowDeep(name, sub, _) => FoundIs(table, name, sub);
    case DenyPair(name, sub) => FoundIs(table, name, sub);
    case _ =>
  }

  // --------------------------------------------------------------------- single commands

  /** `+command` grants the command with all its subcommands, `-command` denies them; nothing else changes but the first
      arguments of the command. */
  lemma CommandMeans(table: Table, s: Selector, cmd: Command)
    requires Find(table, cmd.name) == Some(cmd)
    ensures var o := Apply(table, s, Allow(cmd.name)); o.Done? && Becomes(s, o.selector, IdsOf(cmd), {cmd.id}, true)
    ensures var o := Apply(table, s, Deny(cmd.name)); o.Done? && Becomes(s, o.selector, IdsOf(cmd), {cmd.id}, false)
  {
    hide Becomes, ChangePerm, Find;
    ChangePermIs(s, cmd.id, SubIds(cmd.subs), true);
    ChangePermIs(s, cmd.id, SubIds(cmd.subs), false);
  }

  /** `+command|sub` and `-command|sub` change that one subcommand. */
  lemma SubMeans(table: Table, s: Selector, cmd: Command, k: nat)
    requires Find(table, cmd.name) == Some(cmd) && DistinctSubs(cmd.subs) && k < |cmd.subs|
    ensures var id, o := cmd.subs[k].id, Apply(table, s, AllowPair(cmd.name, cmd.subs[k].name));
            o.Done? && Becomes(s, o.selector, {id}, {id}, true)
    ensures var id, o := cmd.subs[k].id, Apply(table, s, DenyPair(cmd.name, cmd.subs[k].name));
            o.Done? && Becomes(s, o.selector, {id}, {id}, false)
  {
    hide Becomes, ChangePerm, Find, FindSub;
    var sub := cmd.subs[k];
    FindSubAt(cmd.subs, k);
    ChangePermIs(s, sub.id, [], true);
    ChangePermIs(s, sub.id, [], false);
    assert {sub.id} + Members([]) == {sub.id};
  }

  lemma {:induction false} FindSubAt(subs: seq<Sub>, k: nat)
    requires DistinctSubs(subs) && k < |subs|
    ensures FindSub(subs, subs[k].name) == Some(subs[k])
  {
    if k > 0 { FindSubAt(subs[1..], k - 1); }
  }

  /** After `+@all` every command may run, after `-@all` only those that need no authentication. */
  lemma AllMeans(table: Table, s: Selector, id: nat, noAuth: bool, isSub: bool, argv: seq<string>)
    ensures var o := Apply(table, s, AllowAll); o.Done? && Permitted(o.selector, id, noAuth, isSub, argv)
    ensures var o := Apply(table, s, DenyAll); o.Done? && (Permitted(o.selector, id, noAuth, isSub, argv) <==> noAuth)
  {
    NothingListed(if isSub && |argv| > 2 then argv[2] else if |argv| > 1 then argv[1] else "");
  }

  // ------------------------------------------------------------------------------ case

  /** An upper-case letter and its lower-case form. */
  predicate Cased(x: char, y: char) { 'A' <= x <= 'Z' && y as int == x as int + 32 }

  /** Texts are the same when they differ in the case of letters at most. */
  lemma SameTextIs(a: string, b: string)
    ensures SameText(a, b) <==>
              |a| == |b| && forall i :: 0 <= i < |a| ==> a[i] == b[i] || Cased(a[i], b[i]) || Cased(b[i], a[i])
  {
    forall x: char, y: char ensures LowerChar(x) == LowerChar(y) <==> x == y || Cased(x, y) || Cased(y, x) {}
  }
}
