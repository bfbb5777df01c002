/**
 Command permissions of an ACL selector: what every rule does to the bitmap, to the
 ALLCOMMANDS flag and to the first-argument lists, and what every run keeps.
 */
module Acl {
  import opened Common

  /** USER_COMMAND_BITS_COUNT; the last bit is reserved for "future commands". */
  const BITS: nat := 1024
  const RESERVED: nat := 1023
  const CATEGORIES: nat := 21

  datatype Sub = Sub(name: string, id: nat, cats: set<nat>, fromModule: bool, noAuth: bool)

  /** A command of the original table; it is a container when it has subcommands. */
  datatype Command = Command(name: string, id: nat, cats: set<nat>, fromModule: bool, noAuth: bool, subs: seq<Sub>)

  /** The table in the order its dictionary is iterated. */
  type Table = seq<Command>

  datatype Selector = Selector(bits: set<nat>, allCommands: bool, firstArgs: map<nat, seq<string>>)

  const FRESH: Selector := Selector({}, false, map[])

  /** One command rule; `+a|b` is a pair, `+a|b|c` has one bar too many. */
  datatype Rule =
    | AllowAll
    | DenyAll
    | Allow(name: string)
    | AllowPair(name: string, arg: string)
    | AllowDeep(name: string, sub: string, arg: string)
    | Deny(name: string)
    | DenyPair(name: string, sub: string)
    | AllowCategory(cat: nat)
    | DenyCategory(cat: nat)

  datatype Errno = ENOENT | ECHILD | EINVAL

  datatype Outcome = Done(selector: Selector) | Refused(errno: Errno)

  // ------------------------------------------------------------------- the table

  function SubIds(subs: seq<Sub>): (ids: seq<nat>)
    ensures |ids| == |subs|
  {
    seq(|subs|, i requires 0 <= i < |subs| => subs[i].id)
  }

  /** The ids a change of one command touches. */
  function IdsOf(cmd: Command): set<nat> { {cmd.id} + Members(SubIds(cmd.subs)) }

  function Members(ids: seq<nat>): set<nat> { set id | id in ids }

  function Ids(table: Table): set<nat> {
    if table == [] then {} else IdsOf(table[0]) + Ids(table[1..])
  }

  predicate DistinctSubs(subs: seq<Sub>) {
    (forall i :: 0 <= i < |subs| ==> subs[i].name != "")
    && forall i, j :: 0 <= i < j < |subs| ==> subs[i].id != subs[j].id && subs[i].name != subs[j].name
  }

  /** Ids are unique over both levels and below the reserved bit; names are unique at each level
      and those of subcommands not empty. */
  predicate TableOk(table: Table) {
    (forall i :: 0 <= i < |table| ==>
       DistinctSubs(table[i].subs) && table[i].id !in SubIds(table[i].subs)
       && forall id :: id in IdsOf(table[i]) ==> id < RESERVED)
    && forall i, j :: 0 <= i < j < |table| ==>
         table[i].name != table[j].name && IdsOf(table[i]) !! IdsOf(table[j])
  }

  function Find(table: Table, name: string): Option<Command> {
    if table == [] then None else if table[0].name == name then Some(table[0]) else Find(table[1..], name)
  }

  function FindSub(subs: seq<Sub>, name: string): Option<Sub> {
    if subs == [] then None else if subs[0].name == name then Some(subs[0]) else FindSub(subs[1..], name)
  }

  // ------------------------------------------------------------------ single steps

  /** `ACLSetSelectorCommandBit` */
  function SetBit(s: Selector, id: nat, value: bool): Selector {
    if id >= BITS then s
    else if value then s.(bits := s.bits + {id})
    else s.(bits := s.bits - {id}, allCommands := false)
  }

  function SetBits(s: Selector, ids: seq<nat>, value: bool): Selector
    decreases |ids|
  {
    if ids == [] then s else SetBits(SetBit(s, ids[0], value), ids[1..], value)
  }

  /** `ACLChangeSelectorPerm`: the command, its first-argument list, and its subcommands. */
  function ChangePerm(s: Selector, id: nat, subs: seq<nat>, value: bool): Selector {
    var t := SetBit(s, id, value);
    SetBits(t.(firstArgs := t.firstArgs - {id}), subs, value)
  }

  function Change(s: Selector, cmd: Command, value: bool): Selector {
    ChangePerm(s, cmd.id, SubIds(cmd.subs), value)
  }

  /** `ACLSetSelectorCommandBitsForCategoryLogic` on a container's subcommands, and on the table. */
  function CategorySubs(s: Selector, subs: seq<Sub>, cat: nat, value: bool): Selector
    decreases |subs|
  {
    if subs == [] then s
    else
      CategorySubs(if !subs[0].fromModule && cat in subs[0].cats then ChangePerm(s, subs[0].id, [], value) else s,
                   subs[1..], cat, value)
  }

  function CategoryCommand(s: Selector, cmd: Command, cat: nat, value: bool): Selector {
    if cmd.fromModule then s
    else CategorySubs(if cat in cmd.cats then Change(s, cmd, value) else s, cmd.subs, cat, value)
  }

  function Category(s: Selector, table: Table, cat: nat, value: bool): Selector
    decreases |table|
  {
    if table == [] then s else Category(CategoryCommand(s, table[0], cat, value), table[1..], cat, value)
  }

  function LowerChar(c: char): char { if 'A' <= c <= 'Z' then (c as int + 32) as char else c }

  /** `strcasecmp` finds no difference. */
  predicate SameText(a: string, b: string) {
    |a| == |b| && forall i :: 0 <= i < |a| ==> LowerChar(a[i]) == LowerChar(b[i])
  }

  predicate Listed(args: seq<string>, arg: string) {
    exists i :: 0 <= i < |args| && SameText(args[i], arg)
  }

  function ArgsOf(s: Selector, id: nat): seq<string> {
    if id in s.firstArgs then s.firstArgs[id] else []
  }

  /** `ACLAddAllowedFirstArg` */
  function AddFirstArg(s: Selector, id: nat, arg: string): Selector {
    var args := ArgsOf(s, id);
    if Listed(args, arg) then s else s.(firstArgs := s.firstArgs[id := args + [arg]])
  }

  function Below(n: nat): (s: set<nat>)
    ensures forall i: nat :: i in s <==> i < n
  {
    if n == 0 then {} else Below(n - 1) + {n - 1}
  }

  function AllBits(): set<nat> { Below(BITS) }

  /** The command branches of `ACLSetSelector`. */
  function Apply(table: Table, s: Selector, rule: Rule): Outcome {
    match rule
    case AllowAll => Done(Selector(AllBits(), true, map[]))
    case DenyAll => Done(Selector({}, false, map[]))
    case Allow(name) =>
      var cmd := Find(table, name);
      if cmd.None? then Refused(ENOENT) else Done(Change(s, cmd.value, true))
    case AllowPair(name, arg) =>
      var cmd := Find(table, name);
      if cmd.None? then Refused(ENOENT)
      else if arg == "" then Refused(EINVAL)
      else if cmd.value.subs != [] then
        var sub := FindSub(cmd.value.subs, arg);
        if sub.None? then Refused(ENOENT) else Done(ChangePerm(s, sub.value.id, [], true))
      else Done(AddFirstArg(s, cmd.value.id, arg))
    case AllowDeep(name, sub, _) =>
      var cmd := Find(table, name);
      if cmd.None? || FindSub(cmd.value.subs, sub).None? then Refused(ENOENT) else Refused(ECHILD)
    case Deny(name) =>
      var cmd := Find(table, name);
      if cmd.None? then Refused(ENOENT) else Done(Change(s, cmd.value, false))
    case DenyPair(name, sub) =>
      var cmd := Find(table, name);
      if cmd.None? || FindSub(cmd.value.subs, sub).None? then Refused(ENOENT)
      else Done(ChangePerm(s, FindSub(cmd.value.subs, sub).value.id, [], false))
    case AllowCategory(cat) =>
      if cat >= CATEGORIES then Refused(ENOENT) else Done(Category(s, table, cat, true))
    case DenyCategory(cat) =>
      if cat >= CATEGORIES then Refused(ENOENT) else Done(Category(s, table, cat, false))
  }

  /** Rules applied in order; the first refusal ends it. */
  function ApplyAll(table: Table, s: Selector, rules: seq<Rule>): Outcome
    decreases |rules|
  {
    if rules == [] then Done(s)
    else
      var r := Apply(table, s, rules[0]);
      if r.Refused? then r else ApplyAll(table, r.selector, rules[1..])
  }

  /** The command part of `ACLSelectorCheckCmd`; `argv` starts with the command name. */
  predicate Permitted(s: Selector, id: nat, noAuth: bool, isSub: bool, argv: seq<string>) {
    s.allCommands || noAuth || (id < BITS && id in s.bits)
    || var k := if isSub then 2 else 1; k < |argv| && Listed(ArgsOf(s, id), argv[k])
  }

  // ------------------------------------------------------------------ what runs keep

  /** First arguments are kept only for commands without subcommands; no list is empty and no
      argument is empty or listed twice. */
  ghost predicate ArgsOk(table: Table, s: Selector) {
    forall id :: id in s.firstArgs ==>
      s.firstArgs[id] != []
      && (forall k :: 0 <= k < |s.firstArgs[id]| ==> s.firstArgs[id][k] != "" && !Listed(s.firstArgs[id][..k], s.firstArgs[id][k]))
      && exists i :: 0 <= i < |table| && table[i].id == id && table[i].subs == []
  }

  /** ALLCOMMANDS means every bit is set, and bits that no command owns equal the reserved bit. */
  ghost predicate SelectorOk(table: Table, s: Selector) {
    s.bits <= AllBits() && (s.allCommands ==> s.bits == AllBits())
    && (forall id :: 0 <= id < BITS && id !in Ids(table) ==> (id in s.bits <==> RESERVED in s.bits))
    && ArgsOk(table, s)
  }

  // ---------------------------------------------------------------- what steps touch

  /** `t` differs from `s` only in the bits of `ids`, and keeps the invariants that do not depend on the table. */
  ghost predicate TouchesOnly(s: Selector, t: Selector, ids: set<nat>) {
    (forall id :: id !in ids ==> (id in t.bits <==> id in s.bits))
    && (s.bits <= AllBits() ==> t.bits <= AllBits())
    && (s.allCommands && s.bits == AllBits() && t.allCommands ==> t.bits == AllBits())
    && (t.allCommands ==> s.allCommands)
    && t.firstArgs.Keys <= s.firstArgs.Keys && s.firstArgs.Keys - t.firstArgs.Keys <= ids
    && forall id :: id in t.firstArgs ==> t.firstArgs[id] == s.firstArgs[id]
  }

  lemma TouchesTwice(s: Selector, t: Selector, u: Selector, a: set<nat>, b: set<nat>)
    requires TouchesOnly(s, t, a) && TouchesOnly(t, u, b)
    ensures TouchesOnly(s, u, a + b)
  {}

  lemma SetBitTouches(s: Selector, id: nat, value: bool)
    ensures TouchesOnly(s, SetBit(s, id, value), {id})
    ensures id < BITS ==> (id in SetBit(s, id, value).bits <==> value)
  {}

  lemma {:induction false} SetBitsTouches(s: Selector, ids: seq<nat>, value: bool)
    ensures TouchesOnly(s, SetBits(s, ids, value), Members(ids))
    ensures forall id :: id in ids && id < BITS ==> (id in SetBits(s, ids, value).bits <==> value)
    ensures SetBits(s, ids, value).firstArgs == s.firstArgs
    decreases |ids|
  {
    hide TouchesOnly;
    if ids == [] {
      assert Members(ids) == {};
      TouchesNothing(s);
    } else {
      var t := SetBit(s, ids[0], value);
      SetBitTouches(s, ids[0], value);
      SetBitsTouches(t, ids[1..], value);
      TouchesTwice(s, t, SetBits(t, ids[1..], value), {ids[0]}, Members(ids[1..]));
      assert Members(ids) == {ids[0]} + Members(ids[1..]);
      if ids[0] < BITS { SetBitsKeeps(t, ids[1..], ids[0], value); }
    }
  }

  lemma TouchesNothing(s: Selector)
    ensures TouchesOnly(s, s, {})
  {}

  lemma {:induction false} SetBitsKeeps(s: Selector, ids: seq<nat>, id: nat, value: bool)
    requires id in s.bits <==> value
    ensures id in SetBits(s, ids, value).bits <==> value
    decreases |ids|
  {
    if ids != [] { SetBitsKeeps(SetBit(s, ids[0], value), ids[1..], id, value); }
  }

  /** A change sets the command's bit and its subcommands' bits, forgets its first arguments, and
      leaves every other command alone. */
  lemma ChangePermTouches(s: Selector, id: nat, subs: seq<nat>, value: bool)
    ensures var t := ChangePerm(s, id, subs, value);
            TouchesOnly(s, t, {id} + Members(subs))
            && (forall k :: (k == id || k in subs) && k < BITS ==> (k in t.bits <==> value))
            && t.firstArgs == s.firstArgs - {id}
  {
    var t := SetBit(s, id, value);
    var u := t.(firstArgs := t.firstArgs - {id});
    SetBitTouches(s, id, value);
    assert TouchesOnly(t, u, {id});
    TouchesTwice(s, t, u, {id}, {id});
    SetBitsTouches(u, subs, value);
    hide TouchesOnly, SetBits;
    TouchesTwice(s, u, SetBits(u, subs, value), {id} + {id}, Members(subs));
    assert {id} + {id} + Members(subs) == {id} + Members(subs);
    if id < BITS { SetBitsKeeps(u, subs, id, value); }
  }

  lemma ChangeTouches(s: Selector, cmd: Command, value: bool)
    ensures var t := Change(s, cmd, value);
            TouchesOnly(s, t, IdsOf(cmd))
            && (forall k :: k in IdsOf(cmd) && k < BITS ==> (k in t.bits <==> value))
            && t.firstArgs == s.firstArgs - {cmd.id}
  {
    hide TouchesOnly;
    ChangePermTouches(s, cmd.id, SubIds(cmd.subs), value);
  }

  lemma {:induction false} CategorySubsTouches(s: Selector, subs: seq<Sub>, cat: nat, value: bool)
    ensures TouchesOnly(s, CategorySubs(s, subs, cat, value), Members(SubIds(subs)))
    decreases |subs|
  {
    hide TouchesOnly, ChangePerm;
    if subs == [] {
      assert Members(SubIds(subs)) == {};
      TouchesNothing(s);
    } else {
      var hit := !subs[0].fromModule && cat in subs[0].cats;
      var t := if hit then ChangePerm(s, subs[0].id, [], value) else s;
      ChangePermTouches(s, subs[0].id, [], value);
      assert {subs[0].id} + Members([]) == {subs[0].id};
      TouchesNothing(s);
      TouchesMore(s, s, {}, {subs[0].id});
      CategorySubsTouches(t, subs[1..], cat, value);
      TouchesTwice(s, t, CategorySubs(t, subs[1..], cat, value), {subs[0].id}, Members(SubIds(subs[1..])));
      assert SubIds(subs) == [subs[0].id] + SubIds(subs[1..]);
      assert Members(SubIds(subs)) == {subs[0].id} + Members(SubIds(subs[1..]));
    }
  }

  lemma TouchesMore(s: Selector, t: Selector, a: set<nat>, b: set<nat>)
    requires TouchesOnly(s, t, a) && a <= b
    ensures TouchesOnly(s, t, b)
  {}

  lemma CategoryCommandTouches(s: Selector, cmd: Command, cat: nat, value: bool)
    ensures TouchesOnly(s, CategoryCommand(s, cmd, cat, value), IdsOf(cmd))
  {
    hide TouchesOnly, CategorySubs, Change;
    var t := if cat in cmd.cats then Change(s, cmd, value) else s;
    ChangeTouches(s, cmd, value);
    TouchesNothing(s);
    TouchesMore(s, s, {}, IdsOf(cmd));
    CategorySubsTouches(t, cmd.subs, cat, value);
    TouchesTwice(s, t, CategorySubs(t, cmd.subs, cat, value), IdsOf(cmd), Members(SubIds(cmd.subs)));
    assert IdsOf(cmd) + Members(SubIds(cmd.subs)) == IdsOf(cmd);
  }

  lemma {:induction false} CategoryTouches(s: Selector, table: Table, cat: nat, value: bool)
    ensures TouchesOnly(s, Category(s, table, cat, value), Ids(table))
    decreases |table|
  {
    hide TouchesOnly, CategoryCommand;
    if table == [] {
      TouchesNothing(s);
    } else {
      var t := CategoryCommand(s, table[0], cat, value);
      CategoryCommandTouches(s, table[0], cat, value);
      CategoryTouches(t, table[1..], cat, value);
      TouchesTwice(s, t, Category(t, table[1..], cat, value), IdsOf(table[0]), Ids(table[1..]));
    }
  }

  // --------------------------------------------------------------------- the table

  lemma {:induction false} IdsContain(table: Table, i: nat)
    requires i < |table|
    ensures IdsOf(table[i]) <= Ids(table)
  {
    if i > 0 { IdsContain(table[1..], i - 1); }
  }

  lemma {:induction false} IdsComeFrom(table: Table, id: nat) returns (i: nat)
    requires id in Ids(table)
    ensures i < |table| && id in IdsOf(table[i])
  {
    if id in IdsOf(table[0]) {
      i := 0;
    } else {
      i := IdsComeFrom(table[1..], id);
      i := i + 1;
    }
  }

  lemma ReservedIsFree(table: Table)
    requires TableOk(table)
    ensures RESERVED !in Ids(table) && forall id :: id in Ids(table) ==> id < RESERVED
  {
    forall id | id in Ids(table) ensures id < RESERVED {
      var i := IdsComeFrom(table, id);
    }
  }

  lemma {:induction false} FindIsMember(table: Table, name: string) returns (i: nat)
    requires Find(table, name).Some?
    ensures i < |table| && Find(table, name) == Some(table[i])
  {
    if table[0].name == name {
      i := 0;
    } else {
      i := FindIsMember(table[1..], name);
      i := i + 1;
    }
  }

  lemma {:induction false} FindMember(table: Table, i: nat)
    requires i < |table| && forall j, k :: 0 <= j < k < |table| ==> table[j].name != table[k].name
    ensures Find(table, table[i].name) == Some(table[i])
  {
    if i > 0 { FindMember(table[1..], i - 1); }
  }

  lemma {:induction false} FindSubIsMember(subs: seq<Sub>, name: string) returns (i: nat)
    requires FindSub(subs, name).Some?
    ensures i < |subs| && FindSub(subs, name) == Some(subs[i]) && subs[i].id in SubIds(subs)
  {
    if subs[0].name == name {
      i := 0;
    } else {
      i := FindSubIsMember(subs[1..], name);
      i := i + 1;
    }
    assert SubIds(subs)[i] == subs[i].id;
  }

  lemma {:induction false} FindSubMember(subs: seq<Sub>, i: nat)
    requires i < |subs| && DistinctSubs(subs)
    ensures FindSub(subs, subs[i].name) == Some(subs[i])
  {
    if i > 0 { FindSubMember(subs[1..], i - 1); }
  }

  // ------------------------------------------------------------------- every run

  /** Whatever only touches bits of known commands keeps the invariant. */
  lemma TouchKeeps(table: Table, s: Selector, t: Selector, ids: set<nat>)
    requires TableOk(table) && SelectorOk(table, s) && TouchesOnly(s, t, ids) && ids <= Ids(table)
    ensures SelectorOk(table, t)
  {
    ReservedIsFree(table);
    hide Ids, TableOk, Listed, AllBits, ArgsOk;
    FewerArgs(table, s, t);
  }

  lemma FewerArgs(table: Table, s: Selector, t: Selector)
    requires ArgsOk(table, s) && t.firstArgs.Keys <= s.firstArgs.Keys
    requires forall id :: id in t.firstArgs ==> t.firstArgs[id] == s.firstArgs[id]
    ensures ArgsOk(table, t)
  {
    hide Listed;
  }

  lemma AddFirstArgKeeps(table: Table, s: Selector, i: nat, arg: string)
    requires SelectorOk(table, s) && i < |table| && table[i].subs == [] && arg != ""
    ensures SelectorOk(table, AddFirstArg(s, table[i].id, arg))
  {
    hide Ids, Listed, Below;
    var id := table[i].id;
    var args, t := ArgsOf(s, id), AddFirstArg(s, id, arg);
    if !Listed(args, arg) {
      forall k | 0 <= k < |t.firstArgs[id]|
        ensures t.firstArgs[id][k] != "" && !Listed(t.firstArgs[id][..k], t.firstArgs[id][k])
      {
        assert t.firstArgs[id][..k] == args[..k];
        if k == |args| { assert args[..k] == args; }
      }
    }
  }

  lemma ApplyKeeps(table: Table, s: Selector, rule: Rule)
    requires TableOk(table) && SelectorOk(table, s) && Apply(table, s, rule).Done?
    ensures SelectorOk(table, Apply(table, s, rule).selector)
  {
    hide SelectorOk, TableOk, TouchesOnly, Change, ChangePerm, Category, AddFirstArg, Find, FindSub, Ids;
    match rule
    case AllowAll => FreshOk(table);
    case DenyAll => FreshOk(table);
    case Allow(name) => ChangeKeeps(table, s, name, true);
    case Deny(name) => ChangeKeeps(table, s, name, false);
    case AllowPair(name, arg) =>
      var i := FindIsMember(table, name);
      if table[i].subs == [] {
        AddFirstArgKeeps(table, s, i, arg);
      } else {
        SubChangeKeeps(table, s, i, arg, true);
      }
    case AllowDeep(_, _, _) =>
    case DenyPair(name, sub) =>
      var i := FindIsMember(table, name);
      SubChangeKeeps(table, s, i, sub, false);
    case AllowCategory(cat) =>
      CategoryTouches(s, table, cat, true);
      TouchKeeps(table, s, Category(s, table, cat, true), Ids(table));
    case DenyCategory(cat) =>
      CategoryTouches(s, table, cat, false);
      TouchKeeps(table, s, Category(s, table, cat, false), Ids(table));
  }

  lemma FreshOk(table: Table)
    ensures SelectorOk(table, FRESH) && SelectorOk(table, Selector(AllBits(), true, map[]))
  {
    hide Below, Ids;
  }

  lemma ChangeKeeps(table: Table, s: Selector, name: string, value: bool)
    requires TableOk(table) && SelectorOk(table, s) && Find(table, name).Some?
    ensures SelectorOk(table, Change(s, Find(table, name).value, value))
  {
    hide SelectorOk, TableOk, TouchesOnly, Change, Find, Ids;
    var i := FindIsMember(table, name);
    ChangeTouches(s, table[i], value);
    IdsContain(table, i);
    TouchKeeps(table, s, Change(s, table[i], value), IdsOf(table[i]));
  }

  lemma SubChangeKeeps(table: Table, s: Selector, i: nat, name: string, value: bool)
    requires TableOk(table) && SelectorOk(table, s) && i < |table| && FindSub(table[i].subs, name).Some?
    ensures SelectorOk(table, ChangePerm(s, FindSub(table[i].subs, name).value.id, [], value))
  {
    hide SelectorOk, TableOk, TouchesOnly, ChangePerm, FindSub, Ids;
    var j := FindSubIsMember(table[i].subs, name);
    var id := table[i].subs[j].id;
    ChangePermTouches(s, id, [], value);
    IdsContain(table, i);
    assert {id} + Members([]) <= IdsOf(table[i]);
    TouchKeeps(table, s, ChangePerm(s, id, [], value), {id} + Members([]));
  }

  /** Every selector that successful rules can produce from a fresh one satisfies the invariant. */
  lemma {:induction false} EveryRunKeeps(table: Table, s: Selector, rules: seq<Rule>)
    requires TableOk(table) && SelectorOk(table, s) && ApplyAll(table, s, rules).Done?
    ensures SelectorOk(table, ApplyAll(table, s, rules).selector)
    decreases |rules|
  {
    hide SelectorOk, TableOk, Apply;
    if rules != [] {
      ApplyKeeps(table, s, rules[0]);
      EveryRunKeeps(table, Apply(table, s, rules[0]).selector, rules[1..]);
    }
  }

  lemma {:induction false} ApplyAllConcat(table: Table, s: Selector, a: seq<Rule>, b: seq<Rule>)
    requires ApplyAll(table, s, a).Done?
    ensures ApplyAll(table, s, a + b) == ApplyAll(table, ApplyAll(table, s, a).selector, b)
    decreases |a|
  {
    hide Apply;
    if a == [] {
      assert a + b == b;
    } else {
      assert (a + b)[1..] == a[1..] + b;
      ApplyAllConcat(table, Apply(table, s, a[0]).selector, a[1..], b);
    }
  }
}
