/** The parser's symbol actions: local and global definitions, subroutine scopes and native-call
    numbering, over whole sequences of statements. */
module Parsing {
  import opened Words
  import opened Opcodes
  import opened Expressions
  import opened Layout
  import opened Agreement

  // One reduction of the grammar that touches tables or the instruction list.
  datatype Action =
    | DefineLabel(name: string)
    | DefineConstant(name: string, root: nat)
    | OpenSub
    | CloseSub
    | CallNative(name: string)
    | Append(insn: Insn)

  datatype Parsed = Parsed(globals: Symtab, subs: seq<Symtab>, natives: seq<string>, lookup: Scope,
                           insns: seq<Insn>, errors: nat)

  const EMPTY := Parsed([], [], [], Global, [], 0)

  predicate IsLocalName(name: string) {
    |name| > 2 && name[0] == '@' && name[1] == '@'
  }

  /** Local names are two at-signs and at least one more character. */
  lemma LocalNames(name: string)
    ensures IsLocalName(name) <==> exists c, rest :: name == "@@" + [c] + rest
  {
    if IsLocalName(name) {
      assert name == "@@" + [name[2]] + name[3..];
    }
  }

  predicate Defined(tab: Symtab, name: string) {
    Lookup(tab, name).Some?
  }

  function Define(tab: Symtab, name: string, symbol: Symbol): Symtab {
    if Defined(tab, name) then tab else tab + [Entry(name, symbol)]
  }

  function IndexOf(names: seq<string>, name: string): (i: nat)
    ensures i <= |names| && (i < |names| ==> names[i] == name)
    ensures name in names <==> i < |names|
  {
    if |names| == 0 then 0 else if names[0] == name then 0 else 1 + IndexOf(names[1..], name)
  }

  /** `@@` names go to the current scope's table and are an error in the global scope; the rest
      go to the globals. Redefinition is an error. */
  function DefineSymbol(s: Parsed, name: string, symbol: Symbol): Parsed
    requires ScopeOpen(s)
  {
    if IsLocalName(name) && s.lookup.Local? then
      var t := s.lookup.table;
      s.(subs := s.subs[t := Define(s.subs[t], name, symbol)],
         errors := s.errors + if Defined(s.subs[t], name) then 1 else 0)
    else
      s.(globals := Define(s.globals, name, symbol),
         errors := s.errors + (if IsLocalName(name) then 1 else 0) + (if Defined(s.globals, name) then 1 else 0))
  }

  predicate ScopeOpen(s: Parsed) {
    s.lookup.Local? ==> s.lookup.table < |s.subs|
  }

  predicate Directive(insn: Insn) {
    insn.SubStart? || insn.SubEnd?
  }

  function Apply(s: Parsed, a: Action): (r: Parsed)
    requires ScopeOpen(s)
    ensures ScopeOpen(r)
  {
    match a
    case DefineLabel(name) => DefineSymbol(s, name, Label(|s.insns|))
    case DefineConstant(name, root) =>
      var d := DefineSymbol(s, name, Constant(root));
      d.(insns := d.insns + [ConstDef])
    case OpenSub => s.(subs := s.subs + [[]], lookup := Local(|s.subs|), insns := s.insns + [SubStart(|s.subs|)])
    case CloseSub => s.(lookup := Global, insns := s.insns + [SubEnd])
    case CallNative(name) =>
      var id := IndexOf(s.natives, name);
      s.(natives := if id < |s.natives| then s.natives else s.natives + [name],
         insns := s.insns + [Mach(NCALL, id)])
    case Append(insn) => if Directive(insn) then s else s.(insns := s.insns + [insn])
  }

  function ParseAll(actions: seq<Action>): (r: Parsed)
    ensures ScopeOpen(r)
  {
    if |actions| == 0 then EMPTY else Apply(ParseAll(actions[..|actions| - 1]), actions[|actions| - 1])
  }

  // ---------- What error-free parsing establishes ----------

  ghost predicate UniqueNames(tab: Symtab) {
    forall i, j :: 0 <= i < j < |tab| ==> tab[i].name != tab[j].name
  }

  ghost predicate Wellformed(s: Parsed) {
    && ScopeOpen(s)
    && UniqueNames(s.globals)
    && (forall t :: 0 <= t < |s.subs| ==> UniqueNames(s.subs[t]) && OnlyLocals(s.subs[t]))
    && (forall i, j :: 0 <= i < j < |s.natives| ==> s.natives[i] != s.natives[j])
    && s.lookup == ScopeAfter(s.insns, |s.insns|, Global)
    && (s.errors == 0 ==> NoLocals(s.globals))
  }

  ghost predicate NoLocals(tab: Symtab) {
    forall i :: 0 <= i < |tab| ==> !IsLocalName(tab[i].name)
  }

  ghost predicate OnlyLocals(tab: Symtab) {
    forall i :: 0 <= i < |tab| ==> IsLocalName(tab[i].name)
  }

  lemma {:induction false} UndefinedMeansAbsent(tab: Symtab, name: string)
    ensures Defined(tab, name) <==> exists i :: 0 <= i < |tab| && tab[i].name == name
  {
    if |tab| > 0 {
      UndefinedMeansAbsent(tab[1..], name);
      if tab[0].name != name {
        if Defined(tab[1..], name) {
          var i :| 0 <= i < |tab[1..]| && tab[1..][i].name == name;
          assert tab[i + 1].name == name;
        } else {
          assert forall i :: 1 <= i < |tab| ==> tab[i] == tab[1..][i - 1];
        }
      }
    }
  }

  lemma DefineKeepsUnique(tab: Symtab, name: string, symbol: Symbol)
    requires UniqueNames(tab)
    ensures UniqueNames(Define(tab, name, symbol))
  {
    UndefinedMeansAbsent(tab, name);
  }

  lemma {:induction false} ScopeOfPrefix(insns: seq<Insn>, more: seq<Insn>, n: nat, from: Scope)
    requires n <= |insns| && insns <= more
    ensures ScopeAfter(insns, n, from) == ScopeAfter(more, n, from)
  {
    if n > 0 {
      ScopeOfPrefix(insns, more, n - 1, from);
    }
  }

  lemma AppendScope(insns: seq<Insn>, insn: Insn)
    ensures ScopeAfter(insns + [insn], |insns| + 1, Global) == NextScope(ScopeAfter(insns, |insns|, Global), insn)
  {
    ScopeOfPrefix(insns, insns + [insn], |insns|, Global);
  }

  lemma SymbolsStayWellformed(s: Parsed, name: string, symbol: Symbol)
    requires Wellformed(s)
    ensures Wellformed(DefineSymbol(s, name, symbol))
  {
    if IsLocalName(name) && s.lookup.Local? {
      DefineKeepsUnique(s.subs[s.lookup.table], name, symbol);
    } else {
      DefineKeepsUnique(s.globals, name, symbol);
    }
  }

  lemma ApplyKeepsWellformed(s: Parsed, a: Action)
    requires Wellformed(s)
    ensures Wellformed(Apply(s, a))
  {
    var r := Apply(s, a);
    match a {
      case DefineLabel(name) => SymbolsStayWellformed(s, name, Label(|s.insns|));
      case DefineConstant(name, root) =>
        SymbolsStayWellformed(s, name, Constant(root));
        AppendScope(s.insns, ConstDef);
      case OpenSub => AppendScope(s.insns, SubStart(|s.subs|));
      case CloseSub => AppendScope(s.insns, SubEnd);
      case CallNative(name) => AppendScope(s.insns, Mach(NCALL, IndexOf(s.natives, name)));
      case Append(insn) => AppendScope(s.insns, insn);
    }
  }

  /** After any sequence of statements: names are unique in every table, native names are distinct,
      a subroutine's table holds `@@` names only, the current scope is the one the instruction list
      implies, and without an error no `@@` name is global. */
  lemma {:induction false} ParsingIsWellformed(actions: seq<Action>)
    ensures Wellformed(ParseAll(actions))
  {
    if |actions| > 0 {
      ParsingIsWellformed(actions[..|actions| - 1]);
      ApplyKeepsWellformed(ParseAll(actions[..|actions| - 1]), actions[|actions| - 1]);
    }
  }

  /** Tables, native names and instructions only grow. */
  ghost predicate Extends(s: Parsed, t: Parsed) {
    && s.globals <= t.globals && |s.subs| <= |t.subs|
    && (forall k :: 0 <= k < |s.subs| ==> s.subs[k] <= t.subs[k])
    && s.natives <= t.natives && s.insns <= t.insns && s.errors <= t.errors
  }

  lemma ApplyExtends(s: Parsed, a: Action)
    requires ScopeOpen(s)
    ensures Extends(s, Apply(s, a))
  {
    hide Lookup;
  }

  lemma {:induction false} ParsingExtends(actions: seq<Action>, j: nat)
    requires j <= |actions|
    ensures Extends(ParseAll(actions[..j]), ParseAll(actions))
    decreases |actions|
  {
    hide Apply;
    if j < |actions| {
      var front := actions[..|actions| - 1];
      ParsingExtends(front, j);
      assert front[..j] == actions[..j];
      ApplyExtends(ParseAll(front), actions[|actions| - 1]);
    } else {
      assert actions[..j] == actions;
    }
  }

  /** With unique names a lookup finds the one entry of that name. */
  lemma {:induction false} LookupFindsEntry(tab: Symtab, i: nat)
    requires UniqueNames(tab) && i < |tab|
    ensures Lookup(tab, tab[i].name) == Some(tab[i].symbol)
  {
    if i > 0 {
      assert forall k :: 0 <= k < |tab[1..]| ==> tab[1..][k] == tab[k + 1];
      LookupFindsEntry(tab[1..], i - 1);
    }
  }

  /** The table a name defined in state `s` goes to, in a later state `t`. */
  function TableFor(s: Parsed, t: Parsed, name: string): Symtab
    requires ScopeOpen(s) && |s.subs| <= |t.subs|
  {
    if IsLocalName(name) && s.lookup.Local? then t.subs[s.lookup.table] else t.globals
  }

  /** The symbol an action defines when it meets state `s`. */
  function SymbolOf(s: Parsed, a: Action): Symbol
    requires a.DefineLabel? || a.DefineConstant?
  {
    match a
    case DefineLabel(_) => Label(|s.insns|)
    case DefineConstant(_, root) => Constant(root)
  }

  /** Every definition of an error-free parse is, at the end, the unique entry of its name in its
      own scope's table; a label points at the instruction appended after it. */
  lemma DefinitionStays(actions: seq<Action>, j: nat)
    requires j < |actions| && (actions[j].DefineLabel? || actions[j].DefineConstant?)
    requires ParseAll(actions).errors == 0
    ensures |ParseAll(actions[..j]).subs| <= |ParseAll(actions).subs|
    ensures
      var s, t := ParseAll(actions[..j]), ParseAll(actions);
      && (IsLocalName(actions[j].name) ==> s.lookup.Local?)
      && Lookup(TableFor(s, t, actions[j].name), actions[j].name) == Some(SymbolOf(s, actions[j]))
  {
    hide ScopeAfter;
    var s, d, t := ParseAll(actions[..j]), ParseAll(actions[..j + 1]), ParseAll(actions);
    assert actions[..j + 1][..j] == actions[..j];
    ParsingExtends(actions, j);
    ParsingExtends(actions, j + 1);
    ParsingIsWellformed(actions);
    var name, symbol := actions[j].name, SymbolOf(s, actions[j]);
    var before, tab := TableFor(s, s, name), TableFor(s, t, name);
    assert !Defined(before, name);
    assert TableFor(s, d, name) == before + [Entry(name, symbol)];
    assert TableFor(s, d, name) <= tab;
    assert tab[|before|] == Entry(name, symbol);
    LookupFindsEntry(tab, |before|);
  }

  // ---------- Exactly which parses are error-free ----------

  predicate Defines(a: Action) {
    a.DefineLabel? || a.DefineConstant?
  }

  /** The table a definition goes to: the open subroutine's for a local name, otherwise the globals. */
  function KeyAt(actions: seq<Action>, i: nat): Scope
    requires i < |actions| && Defines(actions[i])
  {
    var s := ParseAll(actions[..i]);
    if IsLocalName(actions[i].name) && s.lookup.Local? then s.lookup else Global
  }

  ghost predicate DefinesAt(actions: seq<Action>, i: nat, key: Scope, name: string) {
    i < |actions| && Defines(actions[i]) && actions[i].name == name && KeyAt(actions, i) == key
  }

  function TableAt(s: Parsed, key: Scope): Symtab {
    if key.Global? then s.globals else if key.table < |s.subs| then s.subs[key.table] else []
  }

  lemma SameInFront(actions: seq<Action>, i: nat, key: Scope, name: string)
    requires |actions| > 0 && i < |actions| - 1
    ensures DefinesAt(actions[..|actions| - 1], i, key, name) <==> DefinesAt(actions, i, key, name)
  {
    assert actions[..|actions| - 1][..i] == actions[..i];
  }

  lemma AppliedDefines(s: Parsed, a: Action, key: Scope, name: string)
    requires ScopeOpen(s) && Defines(a)
    ensures
      var own := if IsLocalName(a.name) && s.lookup.Local? then s.lookup else Global;
      && (Defined(TableAt(Apply(s, a), key), name) <==>
            Defined(TableAt(s, key), name) || (key == own && name == a.name))
      && (Apply(s, a).errors == s.errors <==>
            (IsLocalName(a.name) ==> s.lookup.Local?) && !Defined(TableAt(s, own), a.name))
  {
    UndefinedMeansAbsent(TableAt(s, key), name);
    UndefinedMeansAbsent(TableAt(Apply(s, a), key), name);
    hide Lookup;
    var own := if IsLocalName(a.name) && s.lookup.Local? then s.lookup else Global;
    var tab, more := TableAt(s, key), TableAt(Apply(s, a), key);
    assert key != own ==> more == tab;
    if key == own && !Defined(tab, a.name) {
      assert more[|tab|].name == a.name;
      assert forall i :: 0 <= i < |tab| ==> more[i] == tab[i];
    }
  }

  lemma AppliedOther(s: Parsed, a: Action, key: Scope)
    requires ScopeOpen(s) && !Defines(a)
    ensures Apply(s, a).errors == s.errors && Defined(TableAt(Apply(s, a), key), "") == Defined(TableAt(s, key), "")
    ensures TableAt(Apply(s, a), key) == TableAt(s, key)
  {
    hide Lookup;
  }

  /** A table has a name exactly when an earlier statement defined it there. */
  lemma {:induction false} DefinedExactly(actions: seq<Action>, key: Scope, name: string)
    ensures Defined(TableAt(ParseAll(actions), key), name) <==> exists i :: DefinesAt(actions, i, key, name)
  {
    hide Defined, Apply, TableAt;
    if |actions| == 0 {
      NothingDefined(key, name);
    } else {
      var front, a := actions[..|actions| - 1], actions[|actions| - 1];
      DefinedExactly(front, key, name);
      forall i: nat | i < |front| ensures DefinesAt(front, i, key, name) <==> DefinesAt(actions, i, key, name) {
        SameInFront(actions, i, key, name);
      }
      if Defines(a) {
        AppliedDefines(ParseAll(front), a, key, name);
        if DefinesAt(actions, |front|, key, name) {
          assert exists i :: DefinesAt(actions, i, key, name);
        }
      } else {
        AppliedOther(ParseAll(front), a, key);
      }
      if i: nat :| DefinesAt(front, i, key, name) {
        assert DefinesAt(actions, i, key, name);
      }
    }
  }

  lemma NothingDefined(key: Scope, name: string)
    ensures !Defined(TableAt(ParseAll([]), key), name)
  {
  }

  /** The definition is allowed: no local name outside a subroutine, and the name is new in its table. */
  ghost predicate Allowed(actions: seq<Action>, j: nat)
    requires j < |actions| && Defines(actions[j])
  {
    && (IsLocalName(actions[j].name) ==> KeyAt(actions, j).Local?)
    && forall i: nat :: i < j ==> !DefinesAt(actions, i, KeyAt(actions, j), actions[j].name)
  }

  /** A parse is error-free exactly when every definition is allowed. */
  lemma {:induction false} ErrorsExactly(actions: seq<Action>)
    ensures ParseAll(actions).errors == 0 <==>
      forall j: nat | j < |actions| && Defines(actions[j]) :: Allowed(actions, j)
  {
    hide Defined, Apply, TableAt;
    if |actions| > 0 {
      var n := |actions| - 1;
      var front, a := actions[..n], actions[n];
      ErrorsExactly(front);
      forall j: nat | j < n && Defines(actions[j]) ensures Allowed(front, j) <==> Allowed(actions, j) {
        AllowedInFront(actions, j);
      }
      var s := ParseAll(front);
      if Defines(a) {
        AppliedDefines(s, a, KeyAt(actions, n), a.name);
        DefinedExactly(front, KeyAt(actions, n), a.name);
        forall i: nat | i < n
          ensures DefinesAt(front, i, KeyAt(actions, n), a.name) <==> DefinesAt(actions, i, KeyAt(actions, n), a.name)
        {
          SameInFront(actions, i, KeyAt(actions, n), a.name);
        }
        ErrorsGrow(s, a);
      } else {
        AppliedOther(s, a, Global);
      }
    }
  }

  lemma ErrorsGrow(s: Parsed, a: Action)
    requires ScopeOpen(s)
    ensures Apply(s, a).errors >= s.errors
  {
    hide Lookup;
  }

  lemma AllowedInFront(actions: seq<Action>, j: nat)
    requires |actions| > 0 && j < |actions| - 1 && Defines(actions[j])
    ensures Allowed(actions[..|actions| - 1], j) <==> Allowed(actions, j)
  {
    var front := actions[..|actions| - 1];
    assert front[..j] == actions[..j] && KeyAt(front, j) == KeyAt(actions, j);
    forall i: nat | i < j
      ensures DefinesAt(front, i, KeyAt(actions, j), actions[j].name) <==>
        DefinesAt(actions, i, KeyAt(actions, j), actions[j].name)
    {
      SameInFront(actions, i, KeyAt(actions, j), actions[j].name);
    }
  }

  /** The first definition of a name in a table is the one that stays, whatever follows. */
  lemma FirstDefinitionWins(actions: seq<Action>, j: nat)
    requires j < |actions| && Defines(actions[j])
    requires forall i: nat :: i < j ==> !DefinesAt(actions, i, KeyAt(actions, j), actions[j].name)
    ensures
      Lookup(TableAt(ParseAll(actions), KeyAt(actions, j)), actions[j].name) ==
        Some(SymbolOf(ParseAll(actions[..j]), actions[j]))
  {
    hide ScopeAfter, Lookup, Apply, ParseAll, Wellformed, TableAt;
    var s, d, t := ParseAll(actions[..j]), ParseAll(actions[..j + 1]), ParseAll(actions);
    ParsingExtends(actions, j + 1);
    ParsingIsWellformed(actions);
    var name, key := actions[j].name, KeyAt(actions, j);
    NotDefinedBefore(actions, j);
    OneMore(actions, j);
    AddsEntry(s, actions[j]);
    TablesExtend(d, t, key);
    TableUnique(t, key);
    var tab := TableAt(t, key);
    LookupFindsEntry(tab, |TableAt(s, key)|);
  }

  lemma NotDefinedBefore(actions: seq<Action>, j: nat)
    requires j < |actions| && Defines(actions[j])
    requires forall i: nat :: i < j ==> !DefinesAt(actions, i, KeyAt(actions, j), actions[j].name)
    ensures !Defined(TableAt(ParseAll(actions[..j]), KeyAt(actions, j)), actions[j].name)
  {
    hide Defined, TableAt, ParseAll;
    var key, name := KeyAt(actions, j), actions[j].name;
    DefinedExactly(actions[..j], key, name);
    forall i: nat ensures !DefinesAt(actions[..j], i, key, name) {
      if i < j {
        assert actions[..j][..i] == actions[..i];
        assert !DefinesAt(actions, i, key, name);
      }
    }
  }

  lemma OneMore(actions: seq<Action>, j: nat)
    requires j < |actions|
    ensures ParseAll(actions[..j + 1]) == Apply(ParseAll(actions[..j]), actions[j])
  {
    hide Apply;
    assert actions[..j + 1][..j] == actions[..j];
  }

  lemma AddsEntry(s: Parsed, a: Action)
    requires ScopeOpen(s) && Defines(a)
    ensures
      var own := if IsLocalName(a.name) && s.lookup.Local? then s.lookup else Global;
      !Defined(TableAt(s, own), a.name) ==>
        TableAt(Apply(s, a), own) == TableAt(s, own) + [Entry(a.name, SymbolOf(s, a))]
  {
    hide Lookup;
  }

  lemma TablesExtend(s: Parsed, t: Parsed, key: Scope)
    requires Extends(s, t)
    ensures TableAt(s, key) <= TableAt(t, key)
  {
  }

  lemma TableUnique(s: Parsed, key: Scope)
    requires Wellformed(s)
    ensures UniqueNames(TableAt(s, key))
  {
    hide ScopeAfter;
  }

  /** The open subroutine is the one opened last, unless it was closed; its table is numbered by the
      subroutines opened before. */
  lemma {:induction false} OpenSubroutine(actions: seq<Action>, j: nat)
    requires j <= |actions| && forall i :: j <= i < |actions| ==> !actions[i].OpenSub? && !actions[i].CloseSub?
    ensures j == 0 || (j > 0 && actions[j - 1].CloseSub?) ==> ParseAll(actions).lookup == Global
    ensures j > 0 && actions[j - 1].OpenSub? ==> ParseAll(actions).lookup == Local(Opened(actions[..j - 1]))
    decreases |actions|
  {
    hide Define;
    OpenedTables(if |actions| > 0 then actions[..|actions| - 1] else []);
    if j < |actions| {
      var front := actions[..|actions| - 1];
      OpenSubroutine(front, j);
      assert j > 0 ==> front[..j - 1] == actions[..j - 1];
    }
  }

  /** How many subroutines were opened. */
  function Opened(actions: seq<Action>): nat {
    if |actions| == 0 then 0
    else Opened(actions[..|actions| - 1]) + if actions[|actions| - 1].OpenSub? then 1 else 0
  }

  lemma {:induction false} OpenedTables(actions: seq<Action>)
    ensures |ParseAll(actions).subs| == Opened(actions)
  {
    hide Define;
    if |actions| > 0 {
      OpenedTables(actions[..|actions| - 1]);
    }
  }

  /** In an error-free parse a `@@` name is only ever found in the table of the current scope. */
  lemma LocalNamesStayLocal(actions: seq<Action>, name: string)
    requires ParseAll(actions).errors == 0 && IsLocalName(name)
    ensures Lookup(ParseAll(actions).globals, name) == None
  {
    ParsingIsWellformed(actions);
    UndefinedMeansAbsent(ParseAll(actions).globals, name);
  }

  /** Native-call numbering: the id in every NCALL is the position of its own source name in the
      final table, so ids are dense and repeated names share one. */
  lemma NativeIdsNameTheirCalls(actions: seq<Action>, j: nat)
    requires j < |actions| && actions[j].CallNative?
    ensures
      var at := |ParseAll(actions[..j]).insns|;
      var t := ParseAll(actions);
      at < |t.insns| && t.insns[at].Mach? && t.insns[at].op == NCALL
      && t.insns[at].operand < |t.natives| && t.natives[t.insns[at].operand] == actions[j].name
  {
    var s, d := ParseAll(actions[..j]), ParseAll(actions[..j + 1]);
    assert actions[..j + 1][..j] == actions[..j];
    ParsingExtends(actions, j + 1);
    assert d.insns == s.insns + [Mach(NCALL, IndexOf(s.natives, actions[j].name))];
  }

  lemma SymbolsKeepNatives(s: Parsed, a: Action)
    requires ScopeOpen(s)
    ensures !a.CallNative? ==> Apply(s, a).natives == s.natives
  {
    hide Define, Lookup;
  }

  /** Every name of the table was called, so the ids cover the table. */
  lemma {:induction false} NativeNamesWereCalled(actions: seq<Action>, id: nat)
    requires id < |ParseAll(actions).natives|
    ensures exists j :: 0 <= j < |actions| && actions[j] == CallNative(ParseAll(actions).natives[id])
  {
    hide DefineSymbol, Define, Lookup;
    var front := actions[..|actions| - 1];
    var name := ParseAll(actions).natives[id];
    SymbolsKeepNatives(ParseAll(front), actions[|actions| - 1]);
    if id < |ParseAll(front).natives| {
      NativeNamesWereCalled(front, id);
      var j :| 0 <= j < |front| && front[j] == CallNative(name);
      assert actions[j] == CallNative(name);
    } else {
      assert actions[|actions| - 1] == CallNative(name);
    }
  }

  // ---------- What the passes see of a parse ----------

  /** The program an error-free parse hands to the passes. */
  ghost predicate ParsedFrom(p: Program, actions: seq<Action>) {
    var t := ParseAll(actions);
    && p.Valid() && t.errors == 0
    && p.insns == t.insns && p.natives == t.natives && p.entryScope == t.lookup
    && p.world.globals == t.globals && p.world.subs == t.subs
  }

  /** Scope agreement: when the last subroutine is closed, both passes reach every statement in
      the scope the parser was in there. */
  lemma PassesUseParserScopes(p: Program, l: Placement, actions: seq<Action>, j: nat)
    requires ParsedFrom(p, actions) && Pass1(p, |p.insns|) == Some(l) && j <= |actions|
    requires ParseAll(actions).lookup == Global
    ensures
      var s := ParseAll(actions[..j]);
      var i := |s.insns|;
      && i <= |p.insns| && Pass1(p, i).Some? && Pass1(p, i).value.scope == s.lookup
      && (Pass2(p, l, i).Some? ==> Pass2(p, l, i).value.scope == s.lookup)
  {
    hide Pass1, Pass2, Apply;
    var s := ParseAll(actions[..j]);
    ParsingIsWellformed(actions[..j]);
    ParsingExtends(actions, j);
    ScopeOfPrefix(s.insns, p.insns, |s.insns|, Global);
    PassesShareScopes(p, l, |s.insns|);
  }

  /** The passes' scope in front of a statement is the parser's. */
  lemma ScopeAtStatement(p: Program, actions: seq<Action>, j: nat)
    requires ParsedFrom(p, actions) && ParseAll(actions).lookup == Global && j <= |actions|
    ensures
      var s := ParseAll(actions[..j]);
      |s.insns| <= |p.insns| && ScopeAfter(p.insns, |s.insns|, p.entryScope) == s.lookup
  {
    hide Apply;
    ParsingIsWellformed(actions[..j]);
    ParsingExtends(actions, j);
    var s := ParseAll(actions[..j]);
    ScopeOfPrefix(s.insns, p.insns, |s.insns|, Global);
  }

  /** An instruction statement's instruction stands where the list ended. */
  lemma InsnStays(actions: seq<Action>, j: nat)
    requires j < |actions| && actions[j].Append? && !Directive(actions[j].insn)
    ensures
      var i, t := |ParseAll(actions[..j]).insns|, ParseAll(actions);
      i < |t.insns| && t.insns[i] == actions[j].insn
  {
    assert actions[..j + 1][..j] == actions[..j];
    ParsingExtends(actions, j + 1);
    var s, d := ParseAll(actions[..j]), ParseAll(actions[..j + 1]);
    assert d.insns == s.insns + [actions[j].insn];
  }

  /** Unique resolution: a definition is found under its name from its own scope, and a name
      without `@@` from every scope. */
  lemma DefinitionResolves(p: Program, actions: seq<Action>, j: nat, scope: Scope)
    requires ParsedFrom(p, actions) && p.world.ScopeValid(scope)
    requires j < |actions| && (actions[j].DefineLabel? || actions[j].DefineConstant?)
    requires IsLocalName(actions[j].name) ==> scope == ParseAll(actions[..j]).lookup
    ensures p.world.Resolve(scope, actions[j].name) == Some(SymbolOf(ParseAll(actions[..j]), actions[j]))
  {
    hide Apply;
    var name := actions[j].name;
    DefinitionStays(actions, j);
    ParsingIsWellformed(actions);
    if !IsLocalName(name) && scope.Local? {
      UndefinedMeansAbsent(p.world.subs[scope.table], name);
    }
  }

  // ---------- The parser state in place ----------

  class Builder {
    var globals: Symtab
    var subs: seq<Symtab>
    var natives: seq<string>
    var lookup: Scope
    var insns: seq<Insn>
    var errors: nat

    function State(): Parsed
      reads this
    {
      Parsed(globals, subs, natives, lookup, insns, errors)
    }

    constructor ()
      ensures State() == EMPTY
    {
      globals, subs, natives, lookup, insns, errors := [], [], [], Global, [], 0;
    }

    /** Walks a table for a name. */
    method Find(tab: Symtab, name: string) returns (found: bool)
      ensures found <==> Defined(tab, name)
    {
      var i := 0;
      while i < |tab|
        invariant i <= |tab| && Lookup(tab, name) == Lookup(tab[i..], name)
      {
        if tab[i].name == name {
          return true;
        }
        i := i + 1;
      }
      return false;
    }

    method AddSymbol(name: string, symbol: Symbol)
      requires ScopeOpen(State())
      modifies this
      ensures State() == DefineSymbol(old(State()), name, symbol)
    {
      if IsLocalName(name) && lookup == Global {
        errors := errors + 1;
      }
      if IsLocalName(name) && lookup.Local? {
        var t := lookup.table;
        var previous := Find(subs[t], name);
        if previous {
          errors := errors + 1;
        } else {
          subs := subs[t := subs[t] + [Entry(name, symbol)]];
        }
      } else {
        var previous := Find(globals, name);
        if previous {
          errors := errors + 1;
        } else {
          globals := globals + [Entry(name, symbol)];
        }
      }
    }

    /** The id of a native name, appended to the table when new. */
    method NativeId(name: string) returns (id: nat)
      modifies this`natives
      ensures id == IndexOf(old(natives), name)
      ensures natives == if id < |old(natives)| then old(natives) else old(natives) + [name]
    {
      id := 0;
      while id < |natives|
        invariant id <= |natives| && natives == old(natives)
        invariant IndexOf(natives, name) == id + IndexOf(natives[id..], name)
      {
        if natives[id] == name {
          return;
        }
        id := id + 1;
      }
      natives := natives + [name];
    }

    method Reduce(a: Action)
      requires ScopeOpen(State())
      modifies this
      ensures State() == Apply(old(State()), a)
    {
      match a {
        case DefineLabel(name) =>
          AddSymbol(name, Label(|insns|));
        case DefineConstant(name, root) =>
          AddSymbol(name, Constant(root));
          insns := insns + [ConstDef];
        case OpenSub =>
          insns := insns + [SubStart(|subs|)];
          subs, lookup := subs + [[]], Local(|subs|);
        case CloseSub =>
          insns, lookup := insns + [SubEnd], Global;
        case CallNative(name) =>
          var id := NativeId(name);
          insns := insns + [Mach(NCALL, id)];
        case Append(insn) =>
          if !Directive(insn) {
            insns := insns + [insn];
          }
      }
    }
  }
}
