/**
expr_eliminate_dups.  Its helper receives two `struct expr **` into one and the same tree, so a
write through one is seen through the other.  Here that tree is a single value and the two
pointers are cursors (paths) into it; pointer equality of two nodes is equality of their paths.
*/
module KconfigDups {
  import opened Wrappers
  import opened KconfigExpr
  import opened KconfigTransform
  import opened KconfigJoin

  // ----- cursors -----

  datatype Dir = Left | Right
  type Path = seq<Dir>

  function Child(e: Expr, d: Dir): (c: Expr)
    requires e.Bin?
    ensures Size(c) < Size(e)
  {
    if d.Left? then e.l else e.r
  }

  /** The node p is reached through `op` nodes only: it belongs to the `op` level of e. */
  predicate InLevel(op: Junct, e: Expr, p: Path) {
    p == [] || (IsJunct(e, op) && InLevel(op, Child(e, p[0]), p[1..]))
  }

  function At(op: Junct, e: Expr, p: Path): (x: Expr)
    requires InLevel(op, e, p)
    ensures Size(x) <= Size(e)
    ensures p != [] ==> Size(x) < Size(e)
    decreases |p|
  {
    if p == [] then e else At(op, Child(e, p[0]), p[1..])
  }

  function Put(op: Junct, e: Expr, p: Path, x: Expr): Expr
    requires InLevel(op, e, p)
    decreases |p|
  {
    if p == [] then x
    else if p[0].Left? then Bin(op, Put(op, e.l, p[1..], x), e.r)
    else Bin(op, e.l, Put(op, e.r, p[1..], x))
  }

  predicate Leaf(op: Junct, e: Expr, p: Path) {
    InLevel(op, e, p) && !IsJunct(At(op, e, p), op)
  }

  /** The tree of `op` nodes of a level, which duplicate elimination never changes. */
  datatype Shape = Tip | Fork(Shape, Shape)

  function Skeleton(op: Junct, e: Expr): Shape {
    if IsJunct(e, op) then Fork(Skeleton(op, e.l), Skeleton(op, e.r)) else Tip
  }

  function Count(s: Shape): nat {
    match s
    case Tip => 1
    case Fork(l, r) => 1 + Count(l) + Count(r)
  }

  lemma {:induction false} SameSkeleton(op: Junct, e: Expr, e': Expr, p: Path)
    requires Skeleton(op, e) == Skeleton(op, e') && InLevel(op, e, p)
    ensures InLevel(op, e', p) && Skeleton(op, At(op, e, p)) == Skeleton(op, At(op, e', p))
    decreases |p|
  {
    if p != [] { SameSkeleton(op, Child(e, p[0]), Child(e', p[0]), p[1..]); }
  }

  lemma {:induction false} Extend(op: Junct, e: Expr, p: Path)
    requires InLevel(op, e, p) && IsJunct(At(op, e, p), op)
    ensures forall d :: InLevel(op, e, p + [d]) && At(op, e, p + [d]) == Child(At(op, e, p), d)
    decreases |p|
  {
    if p == [] {
      forall d ensures InLevel(op, e, p + [d]) && At(op, e, p + [d]) == Child(At(op, e, p), d) {
        assert p + [d] == [d] && (p + [d])[1..] == [];
      }
    } else {
      Extend(op, Child(e, p[0]), p[1..]);
      forall d ensures InLevel(op, e, p + [d]) && At(op, e, p + [d]) == Child(At(op, e, p), d) {
        assert (p + [d])[1..] == p[1..] + [d];
      }
    }
  }

  // ----- replacing one leaf -----

  lemma {:induction false} PutLeaf(op: Junct, e: Expr, p: Path, x: Expr)
    requires Leaf(op, e, p) && !IsJunct(x, op)
    ensures Leaf(op, Put(op, e, p, x), p) && At(op, Put(op, e, p, x), p) == x
    ensures Skeleton(op, Put(op, e, p, x)) == Skeleton(op, e)
    ensures Size(Put(op, e, p, x)) == Size(e) - Size(At(op, e, p)) + Size(x)
    ensures NormalForm(e) && NormalForm(x) ==> NormalForm(Put(op, e, p, x))
    ensures NormalForm(e) ==> NormalForm(At(op, e, p))
    ensures TriConsts(Put(op, e, p, x)) <= TriConsts(e) + TriConsts(x)
    ensures TriConsts(At(op, e, p)) <= TriConsts(e)
    decreases |p|
  {
    if p != [] { PutLeaf(op, Child(e, p[0]), p[1..], x); }
  }

  lemma {:induction false} PutTwice(op: Junct, e: Expr, p: Path, x: Expr, y: Expr)
    requires Leaf(op, e, p) && !IsJunct(x, op)
    ensures Leaf(op, Put(op, e, p, x), p) && Put(op, Put(op, e, p, x), p, y) == Put(op, e, p, y)
    decreases |p|
  {
    PutLeaf(op, e, p, x);
    if p != [] { PutTwice(op, Child(e, p[0]), p[1..], x, y); }
  }

  lemma {:induction false} PutElsewhere(op: Junct, e: Expr, p: Path, q: Path, x: Expr)
    requires Leaf(op, e, p) && Leaf(op, e, q) && p != q && !IsJunct(x, op)
    ensures Leaf(op, Put(op, e, p, x), q) && At(op, Put(op, e, p, x), q) == At(op, e, q)
    decreases |p|
  {
    if p != [] && q != [] && p[0] == q[0] {
      assert p == [p[0]] + p[1..] && q == [q[0]] + q[1..];
      PutElsewhere(op, Child(e, p[0]), p[1..], q[1..], x);
    }
  }

  lemma {:induction false} PutYn(op: Junct, e: Expr, p: Path, x: Expr)
    requires Leaf(op, e, p) && p != []
    ensures IsYn(x) || HasYn(x) ==> HasYn(Put(op, e, p, x))
    ensures HasYn(e) && (IsYn(At(op, e, p)) || HasYn(At(op, e, p)) ==> IsYn(x) || HasYn(x)) ==>
      HasYn(Put(op, e, p, x))
    decreases |p|
  {
    if |p| > 1 {
      PutYn(op, Child(e, p[0]), p[1..], x);
    } else {
      var x0 := Child(e, p[0]);
      assert p[1..] == [] && At(op, e, p) == x0;
      assert Put(op, x0, p[1..], x) == x;
    }
  }

  /** A level is the combination of any one of its leaves with the rest. */
  lemma {:induction false} Extract(op: Junct, e: Expr, p: Path, x: Expr, env: Env)
    requires Leaf(op, e, p) && Valid(env)
    ensures Eval(Put(op, e, p, x), env) ==
      Apply(op, Eval(x, env), Eval(Put(op, e, p, Sym(Neutral(op))), env))
    decreases |p|
  {
    if p != [] {
      Extract(op, Child(e, p[0]), p[1..], x, env);
    }
  }

  lemma {:induction false} PutSelf(op: Junct, e: Expr, p: Path)
    requires InLevel(op, e, p)
    ensures Put(op, e, p, At(op, e, p)) == e
    decreases |p|
  {
    if p != [] { PutSelf(op, Child(e, p[0]), p[1..]); }
  }

  /** Replacing leaf p by the neutral constant and leaf q by the join of both keeps the value. */
  lemma JoinTwoLeaves(op: Junct, e: Expr, p: Path, q: Path, j: Expr, env: Env)
    requires Leaf(op, e, p) && Leaf(op, e, q) && p != q && Valid(env) && !IsJunct(j, op)
    requires Eval(j, env) == Apply(op, Eval(At(op, e, p), env), Eval(At(op, e, q), env))
    ensures var e1 := Put(op, e, p, Sym(Neutral(op)));
      Leaf(op, e1, q) && Eval(Put(op, e1, q, j), env) == Eval(e, env)
  {
    var unit := Sym(Neutral(op));
    var e1 := Put(op, e, p, unit);
    PutElsewhere(op, e, p, q, unit);
    PutSelf(op, e, p);
    PutSelf(op, e1, q);
    Extract(op, e, p, At(op, e, p), env);
    Extract(op, e1, q, At(op, e1, q), env);
    Extract(op, e1, q, j, env);
  }

  // ----- what one pass keeps and what it looks for -----

  ghost predicate Kept(op: Junct, e: Expr, e': Expr, cs: set<Symbol>) {
    && Equivalent(e, e')
    && Skeleton(op, e') == Skeleton(op, e)
    && Size(e') <= Size(e)
    && (NormalForm(e) ==> NormalForm(e'))
    && TriConsts(e') <= cs
    && (HasYn(e) ==> HasYn(e'))
    && (forall x: Expr :: AllAre(op, e, x) ==> AllAre(op, e', x))
  }

  /** Every operand of the level is x or the neutral constant. */
  predicate Uniform(op: Junct, e: Expr, x: Expr) {
    if IsJunct(e, op) then Uniform(op, e.l, x) && Uniform(op, e.r, x) else e == x || e == Sym(Neutral(op))
  }

  function Copies(op: Junct, e: Expr, x: Expr): nat {
    if IsJunct(e, op) then Copies(op, e.l, x) + Copies(op, e.r, x) else if e == x then 1 else 0
  }

  /** The operands of the level are copies of x, at least one, and neutral constants. */
  predicate AllAre(op: Junct, e: Expr, x: Expr) { !x.Bin? && !IsYn(x) && Uniform(op, e, x) && Copies(op, e, x) > 0 }

  lemma {:induction false} PutUniform(op: Junct, e: Expr, p: Path, y: Expr, x: Expr)
    requires Leaf(op, e, p) && !IsJunct(y, op) && Uniform(op, e, x)
    ensures At(op, e, p) == x || At(op, e, p) == Sym(Neutral(op))
    ensures y == x || y == Sym(Neutral(op)) ==> Uniform(op, Put(op, e, p, y), x)
    ensures Copies(op, Put(op, e, p, y), x) ==
      Copies(op, e, x) - (if At(op, e, p) == x then 1 else 0) + (if y == x then 1 else 0)
    ensures At(op, e, p) == x ==> Copies(op, e, x) > 0
    decreases |p|
  {
    if p != [] { PutUniform(op, Child(e, p[0]), p[1..], y, x); }
  }

  predicate Under(op: Junct, e: Expr, p: Path, leaf: Path) { p <= leaf && Leaf(op, e, leaf) }

  /** No two operands of any && or || level of e can be joined. */
  ghost predicate Settled(e: Expr)
    decreases Size(e), 1
  {
    e.Bin? ==> Unjoinable(e.op, e, [], [])
  }

  ghost predicate Unjoinable(op: Junct, e: Expr, a: Path, b: Path)
    requires IsJunct(e, op)
    decreases Size(e), 0
  {
    forall p, q :: Under(op, e, a, p) && Under(op, e, b, q) && p != q ==>
      Join(op, At(op, e, p), At(op, e, q)).None? && (p != [] ==> Settled(At(op, e, p)))
  }

  lemma UnderChildren(op: Junct, e: Expr, a: Path, p: Path)
    requires Under(op, e, a, p) && InLevel(op, e, a) && IsJunct(At(op, e, a), op)
    ensures Under(op, e, a + [Left], p) || Under(op, e, a + [Right], p)
  {
    assert p != a;
    assert p[|a|] == Left || p[|a|] == Right;
  }

  /** expr_eliminate_dups1 on the shared tree t with cursors a and b. */
  method EliminateDups1(op: Junct, t: Expr, a: Path, b: Path, count: nat, ghost cs: set<Symbol>)
    returns (t': Expr, count': nat)
    requires IsJunct(t, op) && InLevel(op, t, a) && InLevel(op, t, b)
    requires Separated(cs) && TriConsts(t) <= cs
    ensures Kept(op, t, t', cs)
    ensures count <= count'
    ensures count < count' ==> HasYn(t')
    ensures count == count' ==> t' == t && Unjoinable(op, t, a, b)
    decreases Size(t), Count(Skeleton(op, At(op, t, a))) + Count(Skeleton(op, At(op, t, b)))
  {
    hide Kept, Unjoinable, Separated, TriConsts;
    var e1, e2 := At(op, t, a), At(op, t, b);
    if IsJunct(e1, op) {
      Extend(op, t, a);
      var t1, c1 := EliminateDups1(op, t, a + [Left], b, count, cs);
      KeptFacts(op, t, t1, cs);
      SameSkeleton(op, t, t1, a + [Right]);
      SameSkeleton(op, t, t1, b);
      t', count' := EliminateDups1(op, t1, a + [Right], b, c1, cs);
      KeptTwice(op, t, t1, t', cs);
      if count == count' { UnjoinableLeft(op, t, a, b); }
    } else if IsJunct(e2, op) {
      Extend(op, t, b);
      var t1, c1 := EliminateDups1(op, t, a, b + [Left], count, cs);
      KeptFacts(op, t, t1, cs);
      SameSkeleton(op, t, t1, b + [Right]);
      SameSkeleton(op, t, t1, a);
      t', count' := EliminateDups1(op, t1, a, b + [Right], c1, cs);
      KeptTwice(op, t, t1, t', cs);
      if count == count' { UnjoinableRight(op, t, a, b); }
    } else {
      t', count' := ProcessLeaves(op, t, a, b, count, cs);
    }
  }

  lemma KeptFacts(op: Junct, e: Expr, e': Expr, cs: set<Symbol>)
    requires Kept(op, e, e', cs)
    ensures Skeleton(op, e') == Skeleton(op, e) && (IsJunct(e, op) ==> IsJunct(e', op))
    ensures Size(e') <= Size(e) && TriConsts(e') <= cs && (HasYn(e) ==> HasYn(e'))
  {
    hide Equivalent, TriConsts;
  }

  lemma KeptTwice(op: Junct, e: Expr, e1: Expr, e2: Expr, cs: set<Symbol>)
    requires Kept(op, e, e1, cs) && Kept(op, e1, e2, cs)
    ensures Kept(op, e, e2, cs) && (HasYn(e1) ==> HasYn(e2))
  {
    hide Eval, Valid, TriConsts, Skeleton, HasYn, NormalForm;
  }

  lemma UnjoinableLeft(op: Junct, t: Expr, a: Path, b: Path)
    requires IsJunct(t, op) && InLevel(op, t, a) && IsJunct(At(op, t, a), op)
    requires Unjoinable(op, t, a + [Left], b) && Unjoinable(op, t, a + [Right], b)
    ensures Unjoinable(op, t, a, b)
  {
    hide Join, Settled, Under;
    forall p | Under(op, t, a, p) ensures Under(op, t, a + [Left], p) || Under(op, t, a + [Right], p) {
      UnderChildren(op, t, a, p);
    }
  }

  lemma UnjoinableRight(op: Junct, t: Expr, a: Path, b: Path)
    requires IsJunct(t, op) && InLevel(op, t, b) && IsJunct(At(op, t, b), op)
    requires Unjoinable(op, t, a, b + [Left]) && Unjoinable(op, t, a, b + [Right])
    ensures Unjoinable(op, t, a, b)
  {
    hide Join, Settled, Under;
    forall p | Under(op, t, b, p) ensures Under(op, t, b + [Left], p) || Under(op, t, b + [Right], p) {
      UnderChildren(op, t, b, p);
    }
  }

  lemma {:induction false} OnlyLeaf(op: Junct, e: Expr, a: Path, p: Path)
    requires Leaf(op, e, a) && Under(op, e, a, p)
    ensures p == a
    decreases |a|
  {
    if a != [] {
      assert p == [a[0]] + p[1..] && a == [a[0]] + a[1..];
      OnlyLeaf(op, Child(e, a[0]), a[1..], p[1..]);
    }
  }

  /** Rewriting inside one operand keeps the level around it. */
  lemma NestedKept(op: Junct, t: Expr, a: Path, x: Expr, cs: set<Symbol>)
    requires Leaf(op, t, a) && a != [] && TriConsts(t) <= cs
    requires At(op, t, a).Bin? && Kept(At(op, t, a).op, At(op, t, a), x, cs)
    ensures Leaf(op, Put(op, t, a, x), a) && At(op, Put(op, t, a, x), a) == x
    ensures Kept(op, t, Put(op, t, a, x), cs)
  {
    var e1, t' := At(op, t, a), Put(op, t, a, x);
    assert IsJunct(x, e1.op);
    PutLeaf(op, t, a, x);
    PutYn(op, t, a, x);
    PutSelf(op, t, a);
    forall env | Valid(env) ensures Eval(t, env) == Eval(t', env) {
      Extract(op, t, a, e1, env);
      Extract(op, t, a, x, env);
    }
    forall z: Expr ensures !AllAre(op, t, z) { if Uniform(op, t, z) { PutUniform(op, t, a, x, z); } }
  }

  /** Joining two operands keeps the level and leaves a constant behind. */
  lemma JoinKept(op: Junct, t: Expr, a: Path, b: Path, cs: set<Symbol>)
    requires Leaf(op, t, a) && Leaf(op, t, b) && a != b && a != [] && b != []
    requires Separated(cs) && TriConsts(t) <= cs
    requires Join(op, At(op, t, a), At(op, t, b)).Some?
    ensures var t1 := Put(op, t, a, Sym(Neutral(op)));
      && Leaf(op, t1, b)
      && var t2 := Put(op, t1, b, Join(op, At(op, t, a), At(op, t, b)).value);
      Kept(op, t, t2, cs) && HasYn(t2)
  {
    hide Join, AllAre, HasYn, At, Put, InLevel, Equivalent, Skeleton, NormalForm, TriConsts, Separated;
    JoinKeepsShape(op, t, a, b, cs);
    JoinEquivalent(op, t, a, b, cs);
    var j := Join(op, At(op, t, a), At(op, t, b)).value;
    var t2 := Put(op, Put(op, t, a, Sym(Neutral(op))), b, j);
    JoinLeavesConstant(op, t, a, b, j);
    forall z: Expr | AllAre(op, t, z) ensures AllAre(op, t2, z) { AllAreJoined(op, t, a, b, j, z); }
  }

  lemma JoinKeepsShape(op: Junct, t: Expr, a: Path, b: Path, cs: set<Symbol>)
    requires Leaf(op, t, a) && Leaf(op, t, b) && a != b && Separated(cs) && TriConsts(t) <= cs
    requires Join(op, At(op, t, a), At(op, t, b)).Some?
    ensures var j, t1 := Join(op, At(op, t, a), At(op, t, b)).value, Put(op, t, a, Sym(Neutral(op)));
      && !IsJunct(j, op) && Leaf(op, t1, b)
      && var t2 := Put(op, t1, b, j);
      && Skeleton(op, t2) == Skeleton(op, t) && Size(t2) <= Size(t) && TriConsts(t2) <= cs
      && (NormalForm(t) ==> NormalForm(t2))
  {
    hide Join, At, Put, InLevel, Skeleton, NormalForm;
    var x, y, unit := At(op, t, a), At(op, t, b), Sym(Neutral(op));
    var j := Join(op, x, y).value;
    JoinShape(op, x, y);
    PutLeaf(op, t, a, unit);
    PutLeaf(op, t, b, unit);
    PutElsewhere(op, t, a, b, unit);
    PutLeaf(op, Put(op, t, a, unit), b, j);
    assert NormalForm(unit) && TriConsts(unit) == {} by { UnitShape(op); }
  }

  lemma UnitShape(op: Junct)
    ensures NormalForm(Sym(Neutral(op))) && TriConsts(Sym(Neutral(op))) == {}
  {
  }

  lemma JoinEquivalent(op: Junct, t: Expr, a: Path, b: Path, cs: set<Symbol>)
    requires Leaf(op, t, a) && Leaf(op, t, b) && a != b && Separated(cs) && TriConsts(t) <= cs
    requires Join(op, At(op, t, a), At(op, t, b)).Some?
    ensures var j, t1 := Join(op, At(op, t, a), At(op, t, b)).value, Put(op, t, a, Sym(Neutral(op)));
      Leaf(op, t1, b) && Equivalent(t, Put(op, t1, b, j))
  {
    hide Eval, Valid, Join, At, Put, InLevel, Separated;
    var x, y, unit := At(op, t, a), At(op, t, b), Sym(Neutral(op));
    JoinShape(op, x, y);
    PutLeaf(op, t, a, unit);
    PutLeaf(op, t, b, unit);
    PutElsewhere(op, t, a, b, unit);
    forall env | Valid(env) ensures Eval(t, env) == Eval(Put(op, Put(op, t, a, unit), b, Join(op, x, y).value), env) {
      JoinCorrect(op, x, y, cs, env);
      JoinTwoLeaves(op, t, a, b, Join(op, x, y).value, env);
    }
  }

  /** Of copies of x and neutral constants only equal ones are joined. */
  lemma JoinOfTwo(op: Junct, u: Expr, v: Expr, x: Expr)
    requires !x.Bin? && !IsYn(x) && (u == x || u == Sym(Neutral(op))) && (v == x || v == Sym(Neutral(op)))
    requires Join(op, u, v).Some?
    ensures u == v && Join(op, u, v) == Some(u)
  {
    ExprEqReflexive(u);
    if u == v { EqualJoined(op, u, v); }
  }

  lemma AllAreJoined(op: Junct, t: Expr, a: Path, b: Path, j: Expr, x: Expr)
    requires Leaf(op, t, a) && Leaf(op, t, b) && a != b && AllAre(op, t, x)
    requires Join(op, At(op, t, a), At(op, t, b)) == Some(j) && !IsJunct(j, op)
    ensures var t1 := Put(op, t, a, Sym(Neutral(op))); Leaf(op, t1, b) && AllAre(op, Put(op, t1, b, j), x)
  {
    hide Join, At, InLevel, Put, Uniform, Copies;
    var unit := Sym(Neutral(op));
    PutUniform(op, t, a, unit, x);
    PutUniform(op, t, b, unit, x);
    JoinOfTwo(op, At(op, t, a), At(op, t, b), x);
    PutLeaf(op, t, a, unit);
    PutElsewhere(op, t, a, b, unit);
    PutUniform(op, Put(op, t, a, unit), b, j, x);
  }

  lemma JoinLeavesConstant(op: Junct, t: Expr, a: Path, b: Path, j: Expr)
    requires Leaf(op, t, a) && Leaf(op, t, b) && a != b && a != [] && b != [] && !IsJunct(j, op)
    ensures var t1 := Put(op, t, a, Sym(Neutral(op)));
      Leaf(op, t1, b) && HasYn(Put(op, t1, b, j))
  {
    var unit := Sym(Neutral(op));
    var t1 := Put(op, t, a, unit);
    PutLeaf(op, t, a, unit);
    PutElsewhere(op, t, a, b, unit);
    var t2 := Put(op, t1, b, j);
    PutElsewhere(op, t1, b, a, j);
    PutSelf(op, t2, a);
    PutYn(op, t2, a, unit);
  }

  method ProcessLeaves(op: Junct, t: Expr, a: Path, b: Path, count: nat, ghost cs: set<Symbol>)
    returns (t': Expr, count': nat)
    requires IsJunct(t, op) && Leaf(op, t, a) && Leaf(op, t, b)
    requires Separated(cs) && TriConsts(t) <= cs
    ensures Kept(op, t, t', cs)
    ensures count <= count'
    ensures count < count' ==> HasYn(t')
    ensures count == count' ==> t' == t && Unjoinable(op, t, a, b)
    decreases Size(t), 0
  {
    t', count' := t, count;
    forall p | Under(op, t, a, p) ensures p == a { OnlyLeaf(op, t, a, p); }
    forall q | Under(op, t, b, q) ensures q == b { OnlyLeaf(op, t, b, q); }
    if a == b { return; }
    var e1 := At(op, t, a);
    PutLeaf(op, t, a, Sym(SymYes));
    PutSelf(op, t, a);
    if e1.Bin? {
      var e1', c := EliminateDups1(e1.op, e1, [], [], count, cs);
      t', count' := Put(op, t, a, e1'), c;
      NestedKept(op, t, a, e1', cs);
      PutElsewhere(op, t, a, b, e1');
      PutYn(op, t, a, e1');
    }
    match Join(op, At(op, t', a), At(op, t', b))
    case None =>
    case Some(j) =>
      JoinKept(op, t', a, b, cs);
      var t1 := Put(op, t', a, Sym(Neutral(op)));
      t', count' := Put(op, t1, b, j), count' + 1;
  }

  // ----- copies of one operand -----

  /** Every operand of the level is x. */
  predicate Pure(op: Junct, e: Expr, x: Expr) {
    if IsJunct(e, op) then Pure(op, e.l, x) && Pure(op, e.r, x) else e == x
  }

  lemma {:induction false} PureIsAll(op: Junct, e: Expr, x: Expr)
    requires Pure(op, e, x) && !x.Bin? && !IsYn(x)
    ensures AllAre(op, e, x)
  {
    if IsJunct(e, op) {
      PureIsAll(op, e.l, x);
      PureIsAll(op, e.r, x);
    }
  }

  /** e is a level with copies of x as its operands, such as x || x. */
  predicate Copied(e: Expr, x: Expr) { e.Bin? && Pure(e.op, e, x) && !x.Bin? && !IsYn(x) }

  /** Folding the constants leaves the copies. */
  lemma {:induction false} FoldUniform(op: Junct, e: Expr, x: Expr)
    requires !x.Bin? && !IsYn(x) && Uniform(op, e, x)
    ensures if Copies(op, e, x) == 0 then EliminateYn(e) == Sym(Neutral(op)) else Pure(op, EliminateYn(e), x)
  {
    if IsJunct(e, op) {
      FoldUniform(op, e.l, x);
      FoldUniform(op, e.r, x);
    }
  }

  lemma {:induction false} PureLeaf(op: Junct, e: Expr, x: Expr) returns (p: Path)
    requires Pure(op, e, x) && !IsJunct(x, op)
    ensures Leaf(op, e, p) && At(op, e, p) == x
  {
    if IsJunct(e, op) {
      var p1 := PureLeaf(op, e.l, x);
      p := [Left] + p1;
      assert p[1..] == p1;
    } else {
      p := [];
    }
  }

  /** Two copies can be joined. */
  lemma PureSettled(op: Junct, e: Expr, x: Expr)
    requires IsJunct(e, op) && Pure(op, e, x) && !IsJunct(x, op)
    ensures !Settled(e)
  {
    var p1 := PureLeaf(op, e.l, x);
    var q1 := PureLeaf(op, e.r, x);
    var p, q := [Left] + p1, [Right] + q1;
    assert p[1..] == p1 && q[1..] == q1;
    assert Under(op, e, [], p) && Under(op, e, [], q) && p != q;
    ExprEqReflexive(x);
    EqualJoined(op, x, x);
  }

  // ----- what is left when nothing can be joined -----

  /** Two operands of a level of the kinds that duplicate elimination removes: equal ones; on an && level
      two tests of a tristate symbol that a single test can stand for, or an equality and an inequality
      with constants; on an || level two equalities with y, m or n of a tristate symbol, or a bool symbol
      and its negation. */
  ghost predicate Redundant(op: Junct, x: Expr, y: Expr) {
    || ExprEq(x, y)
    || (op == AndOp && exists s: Symbol, z: Expr :: StandsFor(x, y, z, s))
    || (op == AndOp && (EqualUnequal(x, y) || EqualUnequal(y, x)))
    || (op == OrOp && exists s: Symbol :: IsTest(x, s) && IsTest(y, s) && s.Is(Tristated) && IsEqual(x) && IsEqual(y))
    || (op == OrOp && ((IsBool(x) && y == Not(x)) || (IsBool(y) && x == Not(y))))
  }

  ghost predicate StandsFor(x: Expr, y: Expr, z: Expr, s: Symbol) {
    s.Is(Tristated) && IsTest(x, s) && IsTest(y, s) && IsTest(z, s) && SameAs(AndOp, x, y, z)
  }

  predicate IsEqual(e: Expr) { e.Cmp? && e.rel == Equal }
  predicate IsBool(e: Expr) { e.Sym? && e.s.Is(Boolean) }

  /** No level of e, however deep, has two redundant operands. */
  ghost predicate Reduced(e: Expr)
    decreases Size(e)
  {
    e.Bin? ==> forall p, q :: Leaf(e.op, e, p) && Leaf(e.op, e, q) && p != q ==>
      !Redundant(e.op, At(e.op, e, p), At(e.op, e, q)) && (p != [] ==> Reduced(At(e.op, e, p)))
  }

  lemma RedundantJoined(op: Junct, x: Expr, y: Expr)
    requires Redundant(op, x, y)
    ensures Join(op, x, y).Some?
  {
    hide ExprEq, JoinOr, JoinAnd, SameAs, IsTest;
    if ExprEq(x, y) {
      EqualJoined(op, x, y);
    } else if s: Symbol, z: Expr :| op == AndOp && StandsFor(x, y, z, s) {
      JoinAndComplete(x, y, z, s);
    } else if op == AndOp {
      EqualUnequalJoined(x, y);
    } else if s: Symbol :| op == OrOp && IsTest(x, s) && IsTest(y, s) && s.Is(Tristated) && IsEqual(x) && IsEqual(y) {
      JoinOrExact(x, y, s);
    } else {
      JoinBoolComplete(op, x, y, if x.Sym? then x.s else y.s);
    }
  }

  /** What no join applies to is reduced. */
  lemma {:induction false} SettledIsReduced(e: Expr)
    requires Settled(e)
    ensures Reduced(e)
    decreases Size(e)
  {
    hide Join, Redundant;
    if e.Bin? {
      forall p, q | Leaf(e.op, e, p) && Leaf(e.op, e, q) && p != q
        ensures !Redundant(e.op, At(e.op, e, p), At(e.op, e, q)) && (p != [] ==> Reduced(At(e.op, e, p)))
      {
        var x, y := At(e.op, e, p), At(e.op, e, q);
        assert Under(e.op, e, [], p) && Under(e.op, e, [], q);
        if Redundant(e.op, x, y) { RedundantJoined(e.op, x, y); }
        if p != [] { SettledIsReduced(x); }
      }
    }
  }

  lemma {:induction false} EliminateYnKeeps(e: Expr)
    ensures NormalForm(e) ==> NormalForm(EliminateYn(e))
    ensures TriConsts(EliminateYn(e)) <= TriConsts(e)
  {
    if e.Bin? {
      EliminateYnKeeps(e.l);
      EliminateYnKeeps(e.r);
    }
  }

  /** expr_eliminate_dups: passes until nothing changes.  Every changing pass leaves a constant
      operand, so folding constants strictly shrinks the tree and the loop ends. */
  method EliminateDups(e: Expr, transCount: nat) returns (r: Expr, transCount': nat)
    requires Separated(TriConsts(e) + YMN)
    ensures Equivalent(e, r)
    ensures Settled(r) && Reduced(r)
    ensures forall x: Expr :: Copied(e, x) ==> r == x
    ensures r == e || Size(r) < Size(e)
    ensures NormalForm(e) ==> NormalForm(r)
    ensures TriConsts(r) <= TriConsts(e) + YMN
    ensures transCount' == transCount
  {
    ghost var cs := TriConsts(e) + YMN;
    r := e;
    while true
      invariant Equivalent(e, r) && TriConsts(r) <= cs
      invariant r == e || Size(r) < Size(e)
      invariant NormalForm(e) ==> NormalForm(r)
      invariant forall x: Expr :: Copied(e, x) ==> r == x || (IsJunct(r, e.op) && Pure(e.op, r, x))
      decreases Size(r)
    {
      ghost var before := r;
      var count := 0;
      if r.Bin? {
        r, count := EliminateDups1(r.op, r, [], [], 0, cs);
      }
      if count == 0 { break; }
      EliminateYnComplete(r);
      EliminateYnKeeps(r);
      forall env | Valid(env) ensures Eval(EliminateYn(r), env) == Eval(r, env) { EliminateYnCorrect(r, env); }
      forall x: Expr | Copied(e, x) ensures Pure(e.op, EliminateYn(r), x) {
        PureIsAll(e.op, before, x);
        FoldUniform(e.op, r, x);
      }
      r := EliminateYn(r);
    }
    forall x: Expr | Copied(e, x) ensures r == x {
      if IsJunct(r, e.op) { PureSettled(e.op, r, x); }
    }
    SettledIsReduced(r);
    transCount' := transCount;
  }
}
