/**
 The selector as the source keeps it -- sixteen words of permission bits, a flag and the
 first-argument lists, all changed in place -- and the describe loop over it.
 */
module AclSelector {
  import opened Common
  import opened Acl
  import opened AclDescribe

  const WORDS: nat := 16
  const WORD_BITS: nat := 64
  const INT_MAX: nat := 0x7fff_ffff

  /** A 64-bit word is the set of its one bits. */
  type Word = set<nat>

  /** The bits of a bitmap, numbered through its words. */
  function Unpack(words: seq<Word>): set<nat>
    requires |words| == WORDS
  {
    set id | id in AllBits() && id % WORD_BITS in words[id / WORD_BITS]
  }

  lemma UnpackAll(words: seq<Word>, value: bool)
    requires |words| == WORDS && forall k :: 0 <= k < WORDS ==> words[k] == if value then Below(WORD_BITS) else {}
    ensures Unpack(words) == if value then AllBits() else {}
  {
  }

  lemma UnpackAt(words: seq<Word>, id: nat)
    requires |words| == WORDS && id < BITS
    ensures id in Unpack(words) <==> id % WORD_BITS in words[id / WORD_BITS]
  {}

  /** Changing one bit of one word changes one bit of the bitmap. */
  lemma UnpackUpdate(words: seq<Word>, id: nat, word: Word)
    requires |words| == WORDS && id < BITS
    requires forall b :: b < WORD_BITS && b != id % WORD_BITS ==> (b in word <==> b in words[id / WORD_BITS])
    ensures forall k: nat :: k != id ==> (k in Unpack(words[id / WORD_BITS := word]) <==> k in Unpack(words))
    ensures id in Unpack(words[id / WORD_BITS := word]) <==> id % WORD_BITS in word
  {
    var w := id / WORD_BITS;
    forall k: nat | k != id ensures k in Unpack(words[w := word]) <==> k in Unpack(words) {
      if k < BITS && k / WORD_BITS == w {
        assert k % WORD_BITS != id % WORD_BITS;
      }
    }
  }

  // ------------------------------------------------------------- counting a category

  function One(b: bool): nat { if b then 1 else 0 }

  /** Commands of a category whose bit is `on`, over both levels of the table. */
  function CountSubs(bits: set<nat>, subs: seq<Sub>, cat: nat, on: bool): nat
    decreases |subs|
  {
    if subs == [] then 0
    else One(cat in subs[0].cats && (subs[0].id < BITS && subs[0].id in bits) == on) + CountSubs(bits, subs[1..], cat, on)
  }

  function Count(bits: set<nat>, table: Table, cat: nat, on: bool): nat
    decreases |table|
  {
    if table == [] then 0
    else
      One(cat in table[0].cats && (table[0].id < BITS && table[0].id in bits) == on)
      + CountSubs(bits, table[0].subs, cat, on) + Count(bits, table[1..], cat, on)
  }

  /** Commands the category rule would get right, and wrong. */
  function Same(bits: set<nat>, table: Table, cat: nat, additive: bool): nat { Count(bits, table, cat, additive) }
  function Diff(bits: set<nat>, table: Table, cat: nat, additive: bool): nat { Count(bits, table, cat, !additive) }

  /** A category worth a rule: it gets more commands right than wrong. */
  predicate Worth(bits: set<nat>, table: Table, cat: nat, additive: bool) {
    Same(bits, table, cat, additive) > Diff(bits, table, cat, additive) && Diff(bits, table, cat, additive) <= INT_MAX
  }

  /** Nothing of a category is wrong when all its commands and subcommands are as the rule would have them, and
      nothing is right when none is. */
  lemma {:induction false} CountNone(bits: set<nat>, table: Table, cat: nat, on: bool)
    ensures Count(bits, table, cat, on) == 0 <==>
              (forall j :: 0 <= j < |table| && cat in table[j].cats ==> (table[j].id < BITS && table[j].id in bits) != on)
              && (forall j, k :: 0 <= j < |table| && 0 <= k < |table[j].subs| && cat in table[j].subs[k].cats ==>
                    (table[j].subs[k].id < BITS && table[j].subs[k].id in bits) != on)
    decreases |table|
  {
    if table != [] {
      CountNone(bits, table[1..], cat, on);
      CountNoSubs(bits, table[0].subs, cat, on);
      assert forall j :: 0 < j < |table| ==> table[j] == table[1..][j - 1];
    }
  }

  lemma {:induction false} CountNoSubs(bits: set<nat>, subs: seq<Sub>, cat: nat, on: bool)
    ensures CountSubs(bits, subs, cat, on) == 0 <==>
              forall k :: 0 <= k < |subs| && cat in subs[k].cats ==> (subs[k].id < BITS && subs[k].id in bits) != on
    decreases |subs|
  {
    if subs != [] {
      CountNoSubs(bits, subs[1..], cat, on);
      assert forall k :: 0 < k < |subs| ==> subs[k] == subs[1..][k - 1];
    }
  }

  /** A rule `+@category` has no exceptions when every command of the category is to be allowed. */
  lemma NoExceptions(bits: set<nat>, table: Table, cat: nat)
    requires TableOk(table)
    ensures Diff(bits, table, cat, true) == 0 ==> forall j :: 0 <= j < |table| && cat in table[j].cats ==> table[j].id in bits
    ensures Diff(bits, table, cat, false) == 0 ==> forall j :: 0 <= j < |table| && cat in table[j].cats ==> table[j].id !in bits
    ensures Same(bits, table, cat, true) == 0 ==> forall j :: 0 <= j < |table| && cat in table[j].cats ==> table[j].id !in bits
    ensures Same(bits, table, cat, false) == 0 ==> forall j :: 0 <= j < |table| && cat in table[j].cats ==> table[j].id in bits
  {
    hide Count, DistinctSubs;
    CountNone(bits, table, cat, true);
    CountNone(bits, table, cat, false);
    forall j | 0 <= j < |table| ensures table[j].id < BITS { assert table[j].id in IdsOf(table[j]); }
  }

  class SelectorObject {
    const words: array<Word>
    var allCommands: bool
    var firstArgs: map<nat, seq<string>>

    ghost predicate Valid()
      reads this
    {
      words.Length == WORDS
    }

    ghost function View(): Selector
      reads this, words
      requires Valid()
    {
      Selector(Unpack(words[..]), allCommands, firstArgs)
    }

    /** `ACLCreateSelector`, command part. */
    constructor ()
      ensures Valid() && fresh(words) && View() == FRESH
    {
      words := new Word[WORDS](_ => {});
      allCommands := false;
      firstArgs := map[];
      new;
      assert Unpack(words[..]) == {};
    }

    /** `memcpy` of the bitmap of another selector. */
    method CopyBits(other: SelectorObject)
      requires Valid() && other.Valid() && other.words != words
      modifies words
      ensures View() == old(View()).(bits := other.View().bits)
    {
      forall i | 0 <= i < WORDS { words[i] := other.words[i]; }
      assert words[..] == other.words[..];
    }

    /** `ACLGetSelectorCommandBit` */
    method GetBit(id: nat) returns (b: bool)
      requires Valid()
      ensures b <==> id < BITS && id in View().bits
    {
      if id >= BITS { return false; }
      b := id % WORD_BITS in words[id / WORD_BITS];
      UnpackAt(words[..], id);
    }

    /** `ACLSetSelectorCommandBit` */
    method SetCommandBit(id: nat, value: bool)
      requires Valid()
      modifies this`allCommands, words
      ensures View() == SetBit(old(View()), id, value)
    {
      if id >= BITS { return; }
      var w, bit := id / WORD_BITS, id % WORD_BITS;
      ghost var before := words[..];
      var word := if value then words[w] + {bit} else words[w] - {bit};
      words[w] := word;
      if !value { allCommands := false; }
      UnpackUpdate(before, id, word);
      assert words[..] == before[w := word];
      assert View().bits == if value then Unpack(before) + {id} else Unpack(before) - {id};
    }

    /** `ACLChangeSelectorPerm` */
    method ChangePermission(id: nat, subs: seq<Sub>, value: bool)
      requires Valid()
      modifies this, words
      ensures View() == ChangePerm(old(View()), id, SubIds(subs), value)
    {
      hide SetBit, Unpack;
      SetCommandBit(id, value);
      firstArgs := firstArgs - {id};
      ghost var start, ids := View(), SubIds(subs);
      assert start == SetBit(old(View()), id, value).(firstArgs := SetBit(old(View()), id, value).firstArgs - {id});
      var i := 0;
      assert ids[0..] == ids;
      while i < |subs|
        invariant 0 <= i <= |subs|
        invariant SetBits(View(), ids[i..], value) == SetBits(start, ids, value)
      {
        assert ids[i..][0] == subs[i].id && ids[i..][1..] == ids[i + 1..];
        SetCommandBit(subs[i].id, value);
        i := i + 1;
      }
      assert ids[i..] == [];
    }

    /** `ACLSetSelectorCommandBitsForCategoryLogic` on the subcommands of one container. */
    method SetSubsForCategory(subs: seq<Sub>, cat: nat, value: bool)
      requires Valid()
      modifies this, words
      ensures View() == CategorySubs(old(View()), subs, cat, value)
    {
      hide ChangePerm, Unpack;
      var i := 0;
      assert subs[0..] == subs;
      while i < |subs|
        invariant 0 <= i <= |subs|
        invariant CategorySubs(View(), subs[i..], cat, value) == CategorySubs(old(View()), subs, cat, value)
      {
        assert subs[i..][0] == subs[i] && subs[i..][1..] == subs[i + 1..];
        if !subs[i].fromModule && cat in subs[i].cats {
          assert SubIds([]) == [];
          ChangePermission(subs[i].id, [], value);
        }
        i := i + 1;
      }
      assert subs[i..] == [];
    }

    method SetBitsForCategory(table: Table, cat: nat, value: bool)
      requires Valid()
      modifies this, words
      ensures View() == Category(old(View()), table, cat, value)
    {
      hide ChangePerm, Unpack, CategorySubs;
      var i := 0;
      assert table[0..] == table;
      while i < |table|
        invariant 0 <= i <= |table|
        invariant Category(View(), table[i..], cat, value) == Category(old(View()), table, cat, value)
      {
        assert table[i..][0] == table[i] && table[i..][1..] == table[i + 1..];
        if !table[i].fromModule {
          if cat in table[i].cats { ChangePermission(table[i].id, table[i].subs, value); }
          SetSubsForCategory(table[i].subs, cat, value);
        }
        i := i + 1;
      }
      assert table[i..] == [];
    }

    /** `ACLAddAllowedFirstArg`: a linear search, then an append. */
    method AddAllowedFirstArg(id: nat, arg: string)
      requires Valid()
      modifies this`firstArgs
      ensures View() == AddFirstArg(old(View()), id, arg)
    {
      var args := if id in firstArgs then firstArgs[id] else [];
      var i := 0;
      while i < |args|
        invariant 0 <= i <= |args|
        invariant !Listed(args[..i], arg)
      {
        if SameText(args[i], arg) { return; }
        assert args[..i + 1] == args[..i] + [args[i]];
        i := i + 1;
      }
      assert args[..i] == args;
      firstArgs := firstArgs[id := args + [arg]];
    }

    /** `memset` of the whole bitmap, the flag, and `ACLResetFirstArgs`. */
    method SetAll(value: bool)
      requires Valid()
      modifies this, words
      ensures View() == if value then Selector(AllBits(), true, map[]) else FRESH
    {
      hide Unpack, Below;
      var word := if value then Below(WORD_BITS) else {};
      var i := 0;
      while i < WORDS
        invariant 0 <= i <= WORDS && Valid()
        invariant forall k :: 0 <= k < i ==> words[k] == word
      {
        words[i] := word;
        i := i + 1;
      }
      allCommands := value;
      firstArgs := map[];
      UnpackAll(words[..], value);
    }

    /** The command branches of `ACLSetSelector`; a refused rule changes nothing. */
    method SetSelector(table: Table, rule: Rule) returns (error: Option<Errno>)
      requires Valid()
      modifies this, words
      ensures Apply(table, old(View()), rule) == if error.Some? then Refused(error.value) else Done(View())
      ensures error.Some? ==> View() == old(View())
    {
      hide Change, ChangePerm, Category, AddFirstArg, Find, FindSub, Unpack, Below;
      error := None;
      match rule {
        case AllowAll => SetAll(true);
        case DenyAll => SetAll(false);
        case Allow(name) => error := ChangeNamed(table, name, true);
        case Deny(name) => error := ChangeNamed(table, name, false);
        case AllowPair(name, arg) =>
          var cmd := Find(table, name);
          if cmd.None? { return Some(ENOENT); }
          if arg == "" { return Some(EINVAL); }
          if |cmd.value.subs| != 0 {
            error := ChangeSub(cmd.value.subs, arg, true);
          } else {
            AddAllowedFirstArg(cmd.value.id, arg);
          }
        case AllowDeep(name, sub, _) =>
          var cmd := Find(table, name);
          if cmd.None? || FindSub(cmd.value.subs, sub).None? { return Some(ENOENT); }
          error := Some(ECHILD);
        case DenyPair(name, sub) =>
          var cmd := Find(table, name);
          if cmd.None? { return Some(ENOENT); }
          error := ChangeSub(cmd.value.subs, sub, false);
        case AllowCategory(cat) =>
          if cat >= CATEGORIES { return Some(ENOENT); }
          SetBitsForCategory(table, cat, true);
        case DenyCategory(cat) =>
          if cat >= CATEGORIES { return Some(ENOENT); }
          SetBitsForCategory(table, cat, false);
      }
    }

    method ChangeNamed(table: Table, name: string, value: bool) returns (error: Option<Errno>)
      requires Valid()
      modifies this, words
      ensures var cmd := Find(table, name);
              if cmd.None? then error == Some(ENOENT) && View() == old(View())
              else error == None && View() == Change(old(View()), cmd.value, value)
    {
      hide ChangePerm, Unpack;
      var cmd := Find(table, name);
      if cmd.None? { return Some(ENOENT); }
      ChangePermission(cmd.value.id, cmd.value.subs, value);
      error := None;
    }

    method ChangeSub(subs: seq<Sub>, name: string, value: bool) returns (error: Option<Errno>)
      requires Valid()
      modifies this, words
      ensures var sub := FindSub(subs, name);
              if sub.None? then error == Some(ENOENT) && View() == old(View())
              else error == None && View() == ChangePerm(old(View()), sub.value.id, [], value)
    {
      hide ChangePerm, Unpack;
      var sub := FindSub(subs, name);
      if sub.None? { return Some(ENOENT); }
      assert SubIds([]) == [];
      ChangePermission(sub.value.id, [], value);
      error := None;
    }

    /** `ACLCountCategoryBitsForCommands` on one container, then on the table. */
    method CountSubsForCategory(subs: seq<Sub>, cat: nat) returns (on: nat, off: nat)
      requires Valid()
      ensures on == CountSubs(View().bits, subs, cat, true) && off == CountSubs(View().bits, subs, cat, false)
    {
      on, off := 0, 0;
      var i := 0;
      assert subs[0..] == subs;
      while i < |subs|
        invariant 0 <= i <= |subs|
        invariant on + CountSubs(View().bits, subs[i..], cat, true) == CountSubs(View().bits, subs, cat, true)
        invariant off + CountSubs(View().bits, subs[i..], cat, false) == CountSubs(View().bits, subs, cat, false)
      {
        assert subs[i..][0] == subs[i] && subs[i..][1..] == subs[i + 1..];
        if cat in subs[i].cats {
          var bit := GetBit(subs[i].id);
          if bit { on := on + 1; } else { off := off + 1; }
        }
        i := i + 1;
      }
      assert subs[i..] == [];
    }

    method CountCategory(table: Table, cat: nat) returns (on: nat, off: nat)
      requires Valid()
      ensures on == Count(View().bits, table, cat, true) && off == Count(View().bits, table, cat, false)
    {
      hide CountSubs, Unpack;
      on, off := 0, 0;
      var i := 0;
      assert table[0..] == table;
      while i < |table|
        invariant 0 <= i <= |table|
        invariant on + Count(View().bits, table[i..], cat, true) == Count(View().bits, table, cat, true)
        invariant off + Count(View().bits, table[i..], cat, false) == Count(View().bits, table, cat, false)
      {
        assert table[i..][0] == table[i] && table[i..][1..] == table[i + 1..];
        if cat in table[i].cats {
          var bit := GetBit(table[i].id);
          if bit { on := on + 1; } else { off := off + 1; }
        }
        var on', off' := CountSubsForCategory(table[i].subs, cat);
        on, off := on + on', off + off';
        i := i + 1;
      }
      assert table[i..] == [];
    }

    /** The inner loop of the greedy choice: the unapplied category with the fewest differences,
        and among those the one with most in common; -1 when none is worth a rule. */
    method BestCategory(table: Table, applied: set<nat>, additive: bool) returns (best: int)
      requires Valid()
      ensures best == -1 ==> forall j :: 0 <= j < CATEGORIES && j !in applied ==> !Worth(View().bits, table, j, additive)
      ensures best != -1 ==> 0 <= best < CATEGORIES && best !in applied && Worth(View().bits, table, best, additive)
      ensures best != -1 ==>
                forall j :: 0 <= j < CATEGORIES && j !in applied && Worth(View().bits, table, j, additive) ==>
                  Diff(View().bits, table, best, additive) < Diff(View().bits, table, j, additive)
                  || (Diff(View().bits, table, best, additive) == Diff(View().bits, table, j, additive)
                      && Same(View().bits, table, best, additive) >= Same(View().bits, table, j, additive))
    {
      hide Count, Unpack;
      ghost var bits := View().bits;
      best := -1;
      var mindiff, maxsame := INT_MAX, 0;
      var j := 0;
      while j < CATEGORIES
        invariant 0 <= j <= CATEGORIES && -1 <= best < j && View().bits == bits
        invariant best == -1 ==> mindiff == INT_MAX && maxsame == 0
        invariant best == -1 ==> forall k :: 0 <= k < j && k !in applied ==> !Worth(bits, table, k, additive)
        invariant best != -1 ==> best !in applied && Worth(bits, table, best, additive)
        invariant best != -1 ==> mindiff == Diff(bits, table, best, additive) && maxsame == Same(bits, table, best, additive)
        invariant forall k :: 0 <= k < j && k !in applied && Worth(bits, table, k, additive) ==>
                    mindiff < Diff(bits, table, k, additive)
                    || (mindiff == Diff(bits, table, k, additive) && maxsame >= Same(bits, table, k, additive))
      {
        if j !in applied {
          var on, off := CountCategory(table, j);
          var diff := if additive then off else on;
          var same := if additive then on else off;
          if same > diff && (diff < mindiff || (diff == mindiff && same > maxsame)) {
            best, mindiff, maxsame := j, diff, same;
          }
        }
        j := j + 1;
      }
    }

    /** The command part of `ACLSelectorCheckCmd`. */
    method CheckCommand(id: nat, noAuth: bool, isSub: bool, argv: seq<string>) returns (ok: bool)
      requires Valid() && (isSub && 2 <= |argv| && id in firstArgs ==> 2 < |argv|)
      ensures ok <==> Permitted(View(), id, noAuth, isSub, argv)
    {
      if allCommands || noAuth { return true; }
      var bit := GetBit(id);
      if bit { return true; }
      if |argv| < 2 || id !in firstArgs { return false; }
      var k := if isSub then 2 else 1;
      var i := 0;
      while i < |firstArgs[id]|
        invariant 0 <= i <= |firstArgs[id]|
        invariant !Listed(firstArgs[id][..i], argv[k])
      {
        if SameText(argv[k], firstArgs[id][i]) { return true; }
        assert firstArgs[id][..i + 1] == firstArgs[id][..i] + [firstArgs[id][i]];
        i := i + 1;
      }
      assert firstArgs[id][..i] == firstArgs[id];
      ok := false;
    }
  }

  /** `ACLDescribeSelectorCommandRulesSingleCommands` inside one container. */
  method DescribeSubs(selector: SelectorObject, fake: SelectorObject, name: string, subs: seq<Sub>) returns (rules: seq<Rule>)
    requires selector.Valid() && fake.Valid() && selector != fake && selector.words != fake.words
    requires forall j :: 0 <= j < |subs| ==> subs[j].id < BITS
    modifies fake, fake.words
    ensures (rules, fake.View()) == SyncSubs(name, subs, selector.View(), old(fake.View()))
  {
    hide ChangePerm, Unpack;
    rules := [];
    ghost var s, goal := selector.View(), SyncSubs(name, subs, selector.View(), fake.View());
    var i := 0;
    assert subs[0..] == subs && [] + goal.0 == goal.0;
    while i < |subs|
      invariant 0 <= i <= |subs| && selector.View() == s
      invariant goal == (rules + SyncSubs(name, subs[i..], s, fake.View()).0, SyncSubs(name, subs[i..], s, fake.View()).1)
    {
      assert subs[i..][0] == subs[i] && subs[i..][1..] == subs[i + 1..];
      ghost var done := rules;
      var userbit := selector.GetBit(subs[i].id);
      var fakebit := fake.GetBit(subs[i].id);
      if userbit != fakebit {
        rules := rules + [if userbit then AllowPair(name, subs[i].name) else DenyPair(name, subs[i].name)];
        assert SubIds([]) == [];
        fake.ChangePermission(subs[i].id, [], userbit);
        assert rules[|done|..] == [rules[|done|]];
      }
      Associate(done, rules[|done|..], SyncSubs(name, subs[i + 1..], s, fake.View()).0);
      i := i + 1;
    }
    assert subs[i..] == [] && rules + [] == rules;
  }

  lemma Associate<T>(a: seq<T>, b: seq<T>, c: seq<T>)
    ensures a + b + c == a + (b + c) && [] + c == c
  {}

  /** `ACLDescribeSelectorCommandRulesSingleCommands` for one command of the table. */
  method DescribeCommand(selector: SelectorObject, fake: SelectorObject, cmd: Command) returns (rules: seq<Rule>)
    requires selector.Valid() && fake.Valid() && selector != fake && selector.words != fake.words
    requires cmd.id < BITS && forall j :: 0 <= j < |cmd.subs| ==> cmd.subs[j].id < BITS
    modifies fake, fake.words
    ensures (rules, fake.View()) == SyncCommand(cmd, selector.View(), old(fake.View()))
  {
    hide ChangePerm, Unpack, SyncSubs;
    rules := [];
    var userbit := selector.GetBit(cmd.id);
    var fakebit := fake.GetBit(cmd.id);
    if userbit != fakebit {
      rules := [if userbit then Allow(cmd.name) else Deny(cmd.name)];
      fake.ChangePermission(cmd.id, cmd.subs, userbit);
    }
    var subs := DescribeSubs(selector, fake, cmd.name, cmd.subs);
    rules := rules + subs;
    ghost var front := rules;
    if !userbit && cmd.id in selector.firstArgs {
      var args, j := selector.firstArgs[cmd.id], 0;
      while j < |args|
        invariant 0 <= j <= |args|
        invariant rules == front + ArgRules(cmd.name, args)[..j]
      {
        rules := rules + [AllowPair(cmd.name, args[j])];
        assert ArgRules(cmd.name, args)[..j + 1] == ArgRules(cmd.name, args)[..j] + [AllowPair(cmd.name, args[j])];
        j := j + 1;
      }
      assert ArgRules(cmd.name, args)[..j] == ArgRules(cmd.name, args);
    } else {
      assert front + [] == front && ArgRules(cmd.name, []) == [];
    }
  }

  method DescribeCommands(selector: SelectorObject, fake: SelectorObject, table: Table) returns (rules: seq<Rule>)
    requires selector.Valid() && fake.Valid() && selector != fake && selector.words != fake.words && TableOk(table)
    modifies fake, fake.words
    ensures (rules, fake.View()) == SyncTable(table, selector.View(), old(fake.View()))
  {
    hide Unpack, SyncCommand;
    rules := [];
    ghost var s, goal := selector.View(), SyncTable(table, selector.View(), fake.View());
    var i := 0;
    assert table[0..] == table && [] + goal.0 == goal.0;
    while i < |table|
      invariant 0 <= i <= |table| && selector.View() == s
      invariant goal == (rules + SyncTable(table[i..], s, fake.View()).0, SyncTable(table[i..], s, fake.View()).1)
    {
      assert table[i..][0] == table[i] && table[i..][1..] == table[i + 1..];
      IdsInRange(table, i);
      var more := DescribeCommand(selector, fake, table[i]);
      Associate(rules, more, SyncTable(table[i + 1..], s, fake.View()).0);
      rules := rules + more;
      i := i + 1;
    }
    assert table[i..] == [] && rules + [] == rules;
  }

  lemma IdsInRange(table: Table, i: nat)
    requires TableOk(table) && i < |table|
    ensures table[i].id < BITS && forall j :: 0 <= j < |table[i].subs| ==> table[i].subs[j].id < BITS
  {
    assert table[i].id in IdsOf(table[i]);
    forall j | 0 <= j < |table[i].subs| ensures table[i].subs[j].id < BITS {
      assert SubIds(table[i].subs)[j] == table[i].subs[j].id;
      assert table[i].subs[j].id in IdsOf(table[i]);
    }
  }

  /** Some rule of the list is about category `cat`. */
  predicate Names(cats: seq<Rule>, cat: int) {
    exists k :: 0 <= k < |cats| && (cats[k].AllowCategory? || cats[k].DenyCategory?) && cats[k].cat == cat
  }

  /** The greedy loop: each round applies the best category left to the fake selector, takes it out
      of the temporary one, and stops when no category is worth a rule. */
  method ChooseCategories(fake: SelectorObject, temp: SelectorObject, table: Table, additive: bool, ghost front: seq<Rule>)
    returns (cats: seq<Rule>)
    requires fake.Valid() && temp.Valid() && fake != temp && fake.words != temp.words
    requires ApplyAll(table, FRESH, front) == Done(fake.View())
    modifies fake, fake.words, temp, temp.words
    ensures Categories(cats) && ApplyAll(table, FRESH, front + cats) == Done(fake.View())
    ensures |cats| <= CATEGORIES
    ensures forall j :: 0 <= j < CATEGORIES && Worth(temp.View().bits, table, j, additive) ==> Names(cats, j)
  {
    hide Unpack, Apply, Worth, Count, Below;
    cats := [];
    var applied: set<nat> := {};
    assert front + [] == front;
    while true
      invariant Categories(cats) && ApplyAll(table, FRESH, front + cats) == Done(fake.View())
      invariant applied <= Below(CATEGORIES) && |cats| == |applied|
      invariant forall j :: j in applied ==> Names(cats, j)
      decreases Below(CATEGORIES) - applied
    {
      var best := temp.BestCategory(table, applied, additive);
      if best == -1 { break; }
      var rule := if additive then AllowCategory(best) else DenyCategory(best);
      var inverse := if additive then DenyCategory(best) else AllowCategory(best);
      ghost var before := fake.View();
      CategoryAccepted(table, before, rule);
      var _ := fake.SetSelector(table, rule);
      var _ := temp.SetSelector(table, inverse);
      ApplyAllConcat(table, FRESH, front + cats, [rule]);
      ApplyOne(table, before, rule);
      Associate(front, cats, [rule]);
      forall j | Names(cats, j) ensures Names(cats + [rule], j) {
        var k :| 0 <= k < |cats| && (cats[k].AllowCategory? || cats[k].DenyCategory?) && cats[k].cat == j;
        assert (cats + [rule])[k] == cats[k];
      }
      assert Names(cats + [rule], best) by { assert (cats + [rule])[|cats|] == rule; }
      cats := cats + [rule];
      applied := applied + {best};
    }
    SmallSet(applied, CATEGORIES);
  }

  lemma CategoryAccepted(table: Table, s: Selector, rule: Rule)
    requires (rule.AllowCategory? || rule.DenyCategory?) && rule.cat < CATEGORIES
    ensures Apply(table, s, rule).Done?
  {
    hide Category;
  }

  lemma {:induction false} SmallSet(s: set<nat>, n: nat)
    requires s <= Below(n)
    ensures |s| <= n
  {
    if n > 0 {
      SmallSet(s - {n - 1}, n - 1);
      if n - 1 in s { assert s == (s - {n - 1}) + {n - 1}; } else { assert s - {n - 1} == s; }
    } else {
      assert s == {};
    }
  }

  /** `ACLDescribeSelectorCommandRules`: the opening rule, greedily chosen categories, then the single
      commands.  The rules rebuild the selector; the final comparison can never fail. */
  method DescribeSelectorCommandRules(selector: SelectorObject, table: Table) returns (rules: seq<Rule>)
    requires selector.Valid() && TableOk(table) && SelectorOk(table, selector.View())
    ensures Rebuilds(table, selector.View(), rules)
    ensures rules != [] && rules[0] == if RESERVED in selector.View().bits then AllowAll else DenyAll
  {
    hide Unpack, TableOk, SelectorOk, Rebuilds, SyncTable, ApplyAll, Below;
    ghost var s := selector.View();
    var fake := new SelectorObject();
    var temp := new SelectorObject();
    var future := selector.GetBit(RESERVED);
    var opening := if future then AllowAll else DenyAll;
    var _ := fake.SetSelector(table, opening);
    ApplyOne(table, FRESH, opening);
    temp.CopyBits(selector);
    var cats := ChooseCategories(fake, temp, table, !future, [opening]);
    ghost var predicted := fake.View();
    var single := DescribeCommands(selector, fake, table);
    DescriptionWorks(table, s, cats, predicted);
    rules := [opening] + cats + single;
    assert fake.View().bits == selector.View().bits;
  }
}
