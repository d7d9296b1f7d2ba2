/** Symbol tables and constant expressions: the evaluator that consumes each symbol reference
    once, and the pure meaning it agrees with. */
module Expressions {
  import opened Numbers
  import opened Words

  datatype Symbol = Label(location: nat) | Constant(root: nat) | NativeCall(id: nat)
  datatype Entry = Entry(name: string, symbol: Symbol)
  type Symtab = seq<Entry>

  // The head of the lookup chain: the globals, or a subroutine's table backed by the globals.
  datatype Scope = Global | Local(table: nat)

  datatype BinOp = Or | And | Xor | Add | Sub | Mul | Div
  datatype UnOp = Neg | Not

  // Nodes are named by their index; the parser builds children before their parent.
  datatype Node =
    | Literal(value: u32)
    | SymRef(name: string)
    | Binary(bop: BinOp, lhs: nat, rhs: nat)
    | Unary(uop: UnOp, child: nat)

  function Lookup(tab: Symtab, name: string): Option<Symbol> {
    if |tab| == 0 then None
    else if tab[0].name == name then Some(tab[0].symbol)
    else Lookup(tab[1..], name)
  }

  /** Everything the parser leaves behind for evaluation. `owner` groups the nodes of one
      expression: constants' definitions come below `constants`, operands above. */
  datatype World = World(nodes: seq<Node>, owner: seq<nat>, constants: nat, globals: Symtab, subs: seq<Symtab>) {

    predicate Valid() {
      && |owner| == |nodes|
      && (forall i :: 0 <= i < |nodes| ==> ChildrenBelow(i))
      && TableValid(globals)
      && (forall t :: 0 <= t < |subs| ==> TableValid(subs[t]))
    }

    predicate ChildrenBelow(i: nat)
      requires i < |nodes| == |owner|
    {
      match nodes[i]
      case Binary(_, l, r) => l < i && r < i && owner[l] == owner[i] && owner[r] == owner[i]
      case Unary(_, c) => c < i && owner[c] == owner[i]
      case _ => true
    }

    predicate SymbolValid(s: Symbol)
      requires |owner| == |nodes|
    {
      s.Constant? ==> s.root < |nodes| && owner[s.root] < constants
    }

    predicate TableValid(tab: Symtab)
      requires |owner| == |nodes|
    {
      forall k :: 0 <= k < |tab| ==> SymbolValid(tab[k].symbol)
    }

    predicate ScopeValid(scope: Scope) {
      scope.Local? ==> scope.table < |subs|
    }

    predicate Has(e: nat) {
      e < |nodes|
    }

    function Ids(): set<nat> {
      set e: nat | e < |nodes| && Has(e)
    }

    /** The lookup chain: the local table first, then the globals. */
    function Resolve(scope: Scope, name: string): Option<Symbol>
      requires ScopeValid(scope)
    {
      match scope
      case Global => Lookup(globals, name)
      case Local(t) =>
        match Lookup(subs[t], name)
        case Some(s) => Some(s)
        case None => Lookup(globals, name)
    }
  }

  lemma {:induction false} LookupConstant(w: World, tab: Symtab, name: string)
    requires |w.owner| == |w.nodes| && w.TableValid(tab)
    ensures Lookup(tab, name).Some? ==> w.SymbolValid(Lookup(tab, name).value)
  {
    if |tab| > 0 && tab[0].name != name {
      assert forall k :: 0 <= k < |tab[1..]| ==> tab[1..][k] == tab[k + 1];
      LookupConstant(w, tab[1..], name);
    }
  }

  lemma ResolvedConstant(w: World, scope: Scope, name: string)
    requires w.Valid() && w.ScopeValid(scope)
    ensures w.Resolve(scope, name).Some? ==> w.SymbolValid(w.Resolve(scope, name).value)
  {
    LookupConstant(w, w.globals, name);
    if scope.Local? {
      LookupConstant(w, w.subs[scope.table], name);
    }
  }

  /** Unsigned 32-bit arithmetic; a zero divisor is an error. */
  function Combine(op: BinOp, a: u32, b: u32): Option<u32> {
    match op
    case Or => Some(BitOr(a, b))
    case And => Some(BitAnd(a, b))
    case Xor => Some(BitXor(a, b))
    case Add => Some(Wrap(a + b))
    case Sub => Some(Wrap(a - b))
    case Mul => Some(Wrap(a as int * b as int))
    case Div => if b == 0 then None else Some(Quotient(a, b))
  }

  function Quotient(a: int, b: int): u32
    requires b != 0
  {
    Wrap(a / b)
  }

  function Invert(op: UnOp, a: u32): u32 {
    match op
    case Neg => Wrap(0 - a as int)
    case Not => BitNot(a)
  }

  datatype Evaluated = Evaluated(value: u32, used: set<nat>)

  /** An error-free evaluation from a state in which the references in `used` have already been
      overwritten with their symbols; None when an error is reported on the way. `addrs` holds the
      addresses of the instructions allocated so far. */
  function EvalOnce(w: World, scope: Scope, addrs: seq<u32>, e: nat, used: set<nat>): (r: Option<Evaluated>)
    requires w.Valid() && w.ScopeValid(scope) && e < |w.nodes| && used <= w.Ids()
    ensures r.Some? ==> used <= r.value.used <= w.Ids()
    decreases w.Ids() - used, e
  {
    assert w.ChildrenBelow(e);
    match w.nodes[e]
    case Literal(v) => Some(Evaluated(v, used))
    case SymRef(name) =>
      ResolvedConstant(w, scope, name);
      if e in used then None else
      var used' := used + {e};
      (match w.Resolve(scope, name)
      case None => None
      case Some(NativeCall(_)) => None
      case Some(Label(l)) => if l < |addrs| then Some(Evaluated(addrs[l], used')) else None
      case Some(Constant(root)) =>
        assert e in w.Ids() - used && e !in w.Ids() - used';
        EvalOnce(w, scope, addrs, root, used'))
    case Binary(op, l, r) =>
      (match EvalOnce(w, scope, addrs, l, used)
       case None => None
       case Some(left) =>
         assert w.Ids() - left.used <= w.Ids() - used;
         match EvalOnce(w, scope, addrs, r, left.used)
         case None => None
         case Some(right) =>
           match Combine(op, left.value, right.value)
           case None => None
           case Some(v) => Some(Evaluated(v, right.used)))
    case Unary(op, c) =>
      match EvalOnce(w, scope, addrs, c, used)
      case None => None
      case Some(sub) => Some(Evaluated(Invert(op, sub.value), sub.used))
  }

  // What an expression denotes, independently of evaluation order and of what was used before.
  datatype Meaning = Means(value: u32) | Meaningless | Circular

  /** `path` holds the references being expanded; meeting one again is a circular definition. */
  function Denote(w: World, scope: Scope, addrs: seq<u32>, e: nat, path: set<nat>): Meaning
    requires w.Valid() && w.ScopeValid(scope) && e < |w.nodes| && path <= w.Ids()
    decreases w.Ids() - path, e
  {
    assert w.ChildrenBelow(e);
    match w.nodes[e]
    case Literal(v) => Means(v)
    case SymRef(name) =>
      ResolvedConstant(w, scope, name);
      if e in path then Circular else
      (match w.Resolve(scope, name)
      case None => Meaningless
      case Some(NativeCall(_)) => Meaningless
      case Some(Label(l)) => if l < |addrs| then Means(addrs[l]) else Meaningless
      case Some(Constant(root)) =>
        assert e in w.Ids() - path && e !in w.Ids() - (path + {e});
        Denote(w, scope, addrs, root, path + {e}))
    case Binary(op, l, r) =>
      var a := Denote(w, scope, addrs, l, path);
      var b := Denote(w, scope, addrs, r, path);
      if !a.Means? then a else if !b.Means? then b else
      (match Combine(op, a.value, b.value)
       case None => Meaningless
       case Some(v) => Means(v))
    case Unary(op, c) =>
      var a := Denote(w, scope, addrs, c, path);
      if a.Means? then Means(Invert(op, a.value)) else a
  }

  /** The references an evaluation looks at, in order, with repetitions. */
  function Visits(w: World, scope: Scope, e: nat, path: set<nat>): seq<nat>
    requires w.Valid() && w.ScopeValid(scope) && e < |w.nodes| && path <= w.Ids()
    decreases w.Ids() - path, e
  {
    assert w.ChildrenBelow(e);
    match w.nodes[e]
    case Literal(_) => []
    case SymRef(name) =>
      ResolvedConstant(w, scope, name);
      if e in path then [e] else
      (match w.Resolve(scope, name)
       case Some(Constant(root)) =>
         assert e in w.Ids() - path && e !in w.Ids() - (path + {e});
         [e] + Visits(w, scope, root, path + {e})
       case _ => [e])
    case Binary(_, l, r) => Visits(w, scope, l, path) + Visits(w, scope, r, path)
    case Unary(_, c) => Visits(w, scope, c, path)
  }

  function Elements(s: seq<nat>): set<nat> {
    set x | x in s
  }

  ghost predicate Distinct(s: seq<nat>) {
    forall i, j :: 0 <= i < j < |s| ==> s[i] != s[j]
  }

  ghost predicate Unused(s: seq<nat>, used: set<nat>) {
    forall i :: 0 <= i < |s| ==> s[i] !in used
  }

  lemma DistinctAppend(a: seq<nat>, b: seq<nat>, used: set<nat>)
    ensures Distinct(a + b) && Unused(a + b, used) <==>
      Distinct(a) && Unused(a, used) && Distinct(b) && Unused(b, used + Elements(a))
    ensures used + Elements(a) + Elements(b) == used + Elements(a + b)
  {
    var c := a + b;
    if Distinct(c) && Unused(c, used) {
      forall i | 0 <= i < |a| ensures a[i] == c[i] && a[i] !in used {}
      forall i | 0 <= i < |b| ensures b[i] !in used + Elements(a) {
        assert b[i] == c[|a| + i];
      }
      forall i, j | 0 <= i < j < |b| ensures b[i] != b[j] {
        assert b[i] == c[|a| + i] && b[j] == c[|a| + j];
      }
    }
    if Distinct(a) && Unused(a, used) && Distinct(b) && Unused(b, used + Elements(a)) {
      forall i, j | 0 <= i < j < |c| ensures c[i] != c[j] {
        if i < |a| <= j {
          assert c[i] in Elements(a) && c[j] == b[j - |a|];
        }
      }
      assert Unused(c, used);
    }
  }

  /** The evaluator finishes without an error exactly when the expression has a meaning and no
      reference is used a second time, neither within the expression nor from before; it then
      yields that meaning and has used up the references it visited. */
  lemma {:induction false} EvaluatorMatchesMeaning(w: World, scope: Scope, addrs: seq<u32>, e: nat,
                                                   used: set<nat>, path: set<nat>)
    requires w.Valid() && w.ScopeValid(scope) && e < |w.nodes| && path <= used <= w.Ids()
    ensures EvalOnce(w, scope, addrs, e, used).Some? <==>
      && Denote(w, scope, addrs, e, path).Means?
      && Distinct(Visits(w, scope, e, path)) && Unused(Visits(w, scope, e, path), used)
    ensures EvalOnce(w, scope, addrs, e, used).Some? ==>
      EvalOnce(w, scope, addrs, e, used).value ==
      Evaluated(Denote(w, scope, addrs, e, path).value, used + Elements(Visits(w, scope, e, path)))
    decreases w.Ids() - used, e
  {
    assert w.ChildrenBelow(e);
    match w.nodes[e]
    case Literal(v) =>
    case SymRef(name) =>
      ResolvedConstant(w, scope, name);
      if e in used {
        assert Visits(w, scope, e, path)[0] == e;
      } else {
        var s := w.Resolve(scope, name);
        if s.Some? && s.value.Constant? {
          var root := s.value.root;
          assert e in w.Ids() - used && e !in w.Ids() - (used + {e});
          EvaluatorMatchesMeaning(w, scope, addrs, root, used + {e}, path + {e});
          DistinctAppend([e], Visits(w, scope, root, path + {e}), used);
          assert Elements([e]) == {e};
        }
      }
    case Binary(op, l, r) =>
      EvaluatorMatchesMeaning(w, scope, addrs, l, used, path);
      var left := EvalOnce(w, scope, addrs, l, used);
      DistinctAppend(Visits(w, scope, l, path), Visits(w, scope, r, path), used);
      if left.Some? {
        assert w.Ids() - left.value.used <= w.Ids() - used;
        EvaluatorMatchesMeaning(w, scope, addrs, r, left.value.used, path);
      }
    case Unary(op, c) =>
      EvaluatorMatchesMeaning(w, scope, addrs, c, used, path);
  }

  /** An error-free evaluation, whatever ran before it, yields the meaning of the expression. */
  lemma EvaluationIsMeaning(w: World, scope: Scope, addrs: seq<u32>, e: nat, used: set<nat>)
    requires w.Valid() && w.ScopeValid(scope) && e < |w.nodes| && used <= w.Ids()
    requires EvalOnce(w, scope, addrs, e, used).Some?
    ensures Denote(w, scope, addrs, e, {}) == Means(EvalOnce(w, scope, addrs, e, used).value.value)
  {
    EvaluatorMatchesMeaning(w, scope, addrs, e, used, {});
  }

  /** A rank that drops from every reference to the constant it names. */
  ghost predicate Acyclic(w: World, scope: Scope, rank: seq<nat>)
    requires w.Valid() && w.ScopeValid(scope)
  {
    && |rank| == |w.nodes|
    && (forall i :: 0 <= i < |w.nodes| ==> RankFits(w, scope, rank, i))
  }

  ghost predicate RankFits(w: World, scope: Scope, rank: seq<nat>, i: nat)
    requires w.Valid() && w.ScopeValid(scope) && |rank| == |w.nodes| && i < |w.nodes|
  {
    assert w.ChildrenBelow(i);
    match w.nodes[i]
    case Literal(_) => true
    case SymRef(name) =>
      ResolvedConstant(w, scope, name);
      (match w.Resolve(scope, name)
       case Some(Constant(root)) => rank[root] < rank[i]
       case _ => true)
    case Binary(_, l, r) => rank[l] <= rank[i] && rank[r] <= rank[i]
    case Unary(_, c) => rank[c] <= rank[i]
  }

  /** Acyclic constant definitions never lead back to a reference being expanded. */
  lemma {:induction false} AcyclicNotCircular(w: World, scope: Scope, addrs: seq<u32>, rank: seq<nat>,
                                              e: nat, path: set<nat>)
    requires w.Valid() && w.ScopeValid(scope) && e < |w.nodes| && path <= w.Ids()
    requires Acyclic(w, scope, rank)
    requires forall p :: p in path ==> rank[p] > rank[e]
    ensures !Denote(w, scope, addrs, e, path).Circular?
    decreases rank[e], e
  {
    assert w.ChildrenBelow(e) && RankFits(w, scope, rank, e);
    match w.nodes[e]
    case Literal(v) =>
    case SymRef(name) =>
      ResolvedConstant(w, scope, name);
      var s := w.Resolve(scope, name);
      if s.Some? && s.value.Constant? {
        AcyclicNotCircular(w, scope, addrs, rank, s.value.root, path + {e});
      }
    case Binary(op, l, r) =>
      AcyclicNotCircular(w, scope, addrs, rank, l, path);
      AcyclicNotCircular(w, scope, addrs, rank, r, path);
    case Unary(op, c) =>
      AcyclicNotCircular(w, scope, addrs, rank, c, path);
  }

  /** More allocated instructions never change a meaning already found. */
  lemma {:induction false} MeaningStable(w: World, scope: Scope, addrs: seq<u32>, more: seq<u32>,
                                         e: nat, path: set<nat>)
    requires w.Valid() && w.ScopeValid(scope) && e < |w.nodes| && path <= w.Ids()
    requires addrs <= more && Denote(w, scope, addrs, e, path).Means?
    ensures Denote(w, scope, more, e, path) == Denote(w, scope, addrs, e, path)
    decreases w.Ids() - path, e
  {
    assert w.ChildrenBelow(e);
    match w.nodes[e]
    case Literal(v) =>
    case SymRef(name) =>
      ResolvedConstant(w, scope, name);
      var s := w.Resolve(scope, name);
      if s.Some? && s.value.Constant? {
        assert e in w.Ids() - path && e !in w.Ids() - (path + {e});
        MeaningStable(w, scope, addrs, more, s.value.root, path + {e});
      }
    case Binary(op, l, r) =>
      MeaningStable(w, scope, addrs, more, l, path);
      MeaningStable(w, scope, addrs, more, r, path);
    case Unary(op, c) =>
      MeaningStable(w, scope, addrs, more, c, path);
  }

  // One level of the evaluator, by kind of node.

  lemma EvalBinary(w: World, scope: Scope, addrs: seq<u32>, e: nat, used: set<nat>)
    requires w.Valid() && w.ScopeValid(scope) && e < |w.nodes| && used <= w.Ids() && w.nodes[e].Binary?
    ensures w.nodes[e].lhs < e && w.nodes[e].rhs < e
    ensures
      var left := EvalOnce(w, scope, addrs, w.nodes[e].lhs, used);
      if left.None? then EvalOnce(w, scope, addrs, e, used) == None else
      var right := EvalOnce(w, scope, addrs, w.nodes[e].rhs, left.value.used);
      if right.None? then EvalOnce(w, scope, addrs, e, used) == None else
      var v := Combine(w.nodes[e].bop, left.value.value, right.value.value);
      if v.None? then EvalOnce(w, scope, addrs, e, used) == None
      else EvalOnce(w, scope, addrs, e, used) == Some(Evaluated(v.value, right.value.used))
  {
    assert w.ChildrenBelow(e);
  }

  lemma EvalUnary(w: World, scope: Scope, addrs: seq<u32>, e: nat, used: set<nat>)
    requires w.Valid() && w.ScopeValid(scope) && e < |w.nodes| && used <= w.Ids() && w.nodes[e].Unary?
    ensures w.nodes[e].child < e
    ensures
      var sub := EvalOnce(w, scope, addrs, w.nodes[e].child, used);
      if sub.None? then EvalOnce(w, scope, addrs, e, used) == None
      else
        EvalOnce(w, scope, addrs, e, used) == Some(Evaluated(Invert(w.nodes[e].uop, sub.value.value), sub.value.used))
  {
    assert w.ChildrenBelow(e);
  }

  lemma EvalReference(w: World, scope: Scope, addrs: seq<u32>, e: nat, used: set<nat>)
    requires w.Valid() && w.ScopeValid(scope) && e < |w.nodes| && used <= w.Ids() && w.nodes[e].SymRef?
    ensures var s := w.Resolve(scope, w.nodes[e].name);
      && (s.Some? && s.value.Constant? ==> s.value.root < |w.nodes|)
      && (e in used || s.None? || s.value.NativeCall? ==> EvalOnce(w, scope, addrs, e, used) == None)
      && (e !in used && s.Some? && s.value.Label? ==>
            EvalOnce(w, scope, addrs, e, used) ==
            if s.value.location < |addrs| then Some(Evaluated(addrs[s.value.location], used + {e})) else None)
      && (e !in used && s.Some? && s.value.Constant? ==>
            EvalOnce(w, scope, addrs, e, used) == EvalOnce(w, scope, addrs, s.value.root, used + {e}))
  {
    ResolvedConstant(w, scope, w.nodes[e].name);
  }

  // ---------- What the operators mean ----------

  lemma DenotesOperation(w: World, scope: Scope, addrs: seq<u32>, e: nat, path: set<nat>)
    requires w.Valid() && w.ScopeValid(scope) && e < |w.nodes| && path <= w.Ids()
    ensures w.ChildrenBelow(e)
    ensures w.nodes[e].Binary? ==>
      var a, b := Denote(w, scope, addrs, w.nodes[e].lhs, path), Denote(w, scope, addrs, w.nodes[e].rhs, path);
      Denote(w, scope, addrs, e, path) ==
        if !a.Means? then a else if !b.Means? then b
        else if Combine(w.nodes[e].bop, a.value, b.value).None? then Meaningless
        else Means(Combine(w.nodes[e].bop, a.value, b.value).value)
    ensures w.nodes[e].Unary? ==>
      var a := Denote(w, scope, addrs, w.nodes[e].child, path);
      Denote(w, scope, addrs, e, path) == if a.Means? then Means(Invert(w.nodes[e].uop, a.value)) else a
  {
    hide Combine, Invert;
    assert w.ChildrenBelow(e);
  }

  lemma CombineUnfolds(a: u32, b: u32)
    ensures Combine(Add, a, b) == Some(Wrap(a + b)) && Combine(Sub, a, b) == Some(Wrap(a - b))
    ensures Combine(Mul, a, b) == Some(Wrap(a as int * b as int))
    ensures Combine(Div, a, b) == if b == 0 then None else Some(Wrap(a / b))
  {
    hide BitAnd, BitOr, BitXor, Wrap;
  }

  lemma Differences(a: u32, b: u32)
    ensures (Wrap(a + b) - a - b) % 0x1_0000_0000 == 0 && (Wrap(a - b) + b - a) % 0x1_0000_0000 == 0
  {
  }

  lemma QuotientFits(a: u32, b: u32)
    requires b != 0
    ensures Wrap(a / b) == a / b && 0 <= a - a / b * b < b
  {
    QuotientFacts(a, b);
  }

  lemma CombinedValues(a: u32, b: u32)
    ensures Combine(Add, a, b).Some? && (Combine(Add, a, b).value - a - b) % 0x1_0000_0000 == 0
    ensures Combine(Sub, a, b).Some? && (Combine(Sub, a, b).value + b - a) % 0x1_0000_0000 == 0
    ensures Combine(Mul, a, b) == Some(a as int * b as int % 0x1_0000_0000)
    ensures b == 0 ==> Combine(Div, a, b) == None
    ensures b != 0 ==> Combine(Div, a, b).Some? && 0 <= a - Combine(Div, a, b).value as int * b as int < b
  {
    hide Combine;
    CombineUnfolds(a, b);
    Differences(a, b);
    if b != 0 {
      QuotientFits(a, b);
    }
  }

  /** Sum, difference and product modulo 2^32; the quotient rounds down and division by zero has no
      meaning. */
  lemma ArithmeticMeans(w: World, scope: Scope, addrs: seq<u32>, e: nat, path: set<nat>, a: u32, b: u32)
    requires w.Valid() && w.ScopeValid(scope) && e < |w.nodes| && path <= w.Ids() && w.nodes[e].Binary?
    requires w.ChildrenBelow(e)
    requires Denote(w, scope, addrs, w.nodes[e].lhs, path) == Means(a)
    requires Denote(w, scope, addrs, w.nodes[e].rhs, path) == Means(b)
    ensures
      var m, op := Denote(w, scope, addrs, e, path), w.nodes[e].bop;
      && (op == Add ==> m.Means? && (m.value - a - b) % 0x1_0000_0000 == 0)
      && (op == Sub ==> m.Means? && (m.value + b - a) % 0x1_0000_0000 == 0)
      && (op == Mul ==> m.Means? && m.value == a as int * b as int % 0x1_0000_0000)
      && (op == Div && b == 0 ==> m == Meaningless)
      && (op == Div && b != 0 ==> m.Means? && 0 <= a - m.value as int * b as int < b)
  {
    hide Denote, Combine;
    DenotesOperation(w, scope, addrs, e, path);
    CombinedValues(a, b);
  }

  lemma CombinedBits(a: u32, b: u32)
    ensures Combine(And, a, b) == Some(BitAnd(a, b)) && Combine(Or, a, b) == Some(BitOr(a, b))
    ensures Combine(Xor, a, b) == Some(BitXor(a, b))
  {
    hide BitAnd, BitOr, BitXor;
  }

  /** The bit operators bit by bit. */
  lemma BitOperatorMeans(w: World, scope: Scope, addrs: seq<u32>, e: nat, path: set<nat>, a: u32, b: u32, k: nat)
    requires w.Valid() && w.ScopeValid(scope) && e < |w.nodes| && path <= w.Ids() && w.nodes[e].Binary? && k < 32
    requires w.ChildrenBelow(e) && w.nodes[e].bop in {Or, And, Xor}
    requires Denote(w, scope, addrs, w.nodes[e].lhs, path) == Means(a)
    requires Denote(w, scope, addrs, w.nodes[e].rhs, path) == Means(b)
    ensures Denote(w, scope, addrs, e, path).Means?
    ensures
      var x, y, op := a / Power(2, k) % 2, b / Power(2, k) % 2, w.nodes[e].bop;
      Denote(w, scope, addrs, e, path).value / Power(2, k) % 2 ==
        if op == And then x * y else if op == Or then (if x + y == 0 then 0 else 1) else (x + y) % 2
  {
    hide Denote, Combine, BitAnd, BitOr, BitXor, Power;
    DenotesOperation(w, scope, addrs, e, path);
    CombinedBits(a, b);
    BitsMean(a, b, k);
  }

  lemma InvertedValues(a: u32)
    ensures (Invert(Neg, a) as int + a as int) % 0x1_0000_0000 == 0
    ensures Invert(Not, a) == BitNot(a)
  {
    hide BitNot;
  }

  /** Negation and its operand wrap to zero; inversion flips every bit. */
  lemma UnaryMeans(w: World, scope: Scope, addrs: seq<u32>, e: nat, path: set<nat>, a: u32, k: nat)
    requires w.Valid() && w.ScopeValid(scope) && e < |w.nodes| && path <= w.Ids() && w.nodes[e].Unary? && k < 32
    requires w.ChildrenBelow(e) && Denote(w, scope, addrs, w.nodes[e].child, path) == Means(a)
    ensures
      var m := Denote(w, scope, addrs, e, path);
      && m.Means?
      && (w.nodes[e].uop == Neg ==> (m.value as int + a as int) % 0x1_0000_0000 == 0)
      && (w.nodes[e].uop == Not ==> m.value / Power(2, k) % 2 == 1 - a / Power(2, k) % 2)
  {
    hide Denote, BitNot, Power, Invert;
    DenotesOperation(w, scope, addrs, e, path);
    InvertedValues(a);
    BitsMean(a, a, k);
  }

  /** A subroutine's own names come before the global ones, which it sees too. */
  lemma LocalFirst(w: World, t: nat, name: string)
    requires t < |w.subs|
    ensures w.Resolve(Global, name) == Lookup(w.globals, name)
    ensures Lookup(w.subs[t], name).Some? ==> w.Resolve(Local(t), name) == Lookup(w.subs[t], name)
    ensures Lookup(w.subs[t], name).None? ==> w.Resolve(Local(t), name) == w.Resolve(Global, name)
  {
    hide Lookup;
  }

  /** Leaves: a literal is its value; a name is the address of its label's instruction or what its
      constant's definition means, looked up from the table it is found in. */
  lemma LeafMeans(w: World, scope: Scope, addrs: seq<u32>, e: nat)
    requires w.Valid() && w.ScopeValid(scope) && e < |w.nodes|
    ensures w.nodes[e].Literal? ==> Denote(w, scope, addrs, e, {}) == Means(w.nodes[e].value)
    ensures w.nodes[e].SymRef? ==>
      var s, m := w.Resolve(scope, w.nodes[e].name), Denote(w, scope, addrs, e, {});
      if s.Some? && s.value.Label? then
        m == if s.value.location < |addrs| then Means(addrs[s.value.location]) else Meaningless
      else if s.Some? && s.value.Constant? then
        s.value.root < |w.nodes| && {e} <= w.Ids() && m == Denote(w, scope, addrs, s.value.root, {e})
      else m == Meaningless
  {
    if w.nodes[e].SymRef? {
      ResolvedConstant(w, scope, w.nodes[e].name);
      assert w.Has(e);
      assert {} + {e} == {e};
    }
  }
}
