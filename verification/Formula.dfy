/**
  User formulas (obs/core/formula.py): a walk over all nodes of the syntax tree accepts or
  rejects it, and only an accepted tree is evaluated. Acceptance is sound: evaluation
  meets no unbound name, no foreign attribute, and calls nothing but allowed functions.
 */
module Formula {
  import opened Wrappers

  // ---- syntax trees ------------------------------------------------------------------------------------

  /** Operators and expression contexts are nodes of their own, without children; Other is any further kind of node. */
  datatype Node =
    | Expression(body: Node)
    | BinOp(left: Node, op: Node, right: Node)
    | UnaryOp(op: Node, operand: Node)
    | Constant(constant: Value)
    | Name(id: string, ctx: Node)
    | Attribute(value: Node, attr: string, ctx: Node)
    | Call(func: Node, args: seq<Node>, keywords: seq<Node>)
    | Other(kind: string, parts: seq<Node>)

  datatype FloatValue = FiniteFloat(r: real) | Nan | Infinite(positive: bool)

  datatype Value =
    | Bool(b: bool)
    | Int(i: int)
    | Float(f: FloatValue)
    | Function(name: string)
    | MathModule
    | Object(description: string)

  function Children(n: Node): (r: seq<Node>)
    ensures forall i :: 0 <= i < |r| ==> r[i] < n
  {
    match n
    case Expression(body) => [body]
    case BinOp(left, op, right) => [left, op, right]
    case UnaryOp(op, operand) => [op, operand]
    case Constant(_) => []
    case Name(_, ctx) => [ctx]
    case Attribute(value, _, ctx) => [value, ctx]
    case Call(func, args, keywords) => [func] + args + keywords
    case Other(_, parts) => parts
  }

  // ---- validation -------------------------------------------------------------------------------------------

  /** The operators and the one context that formulas may use. */
  predicate IsOperator(kind: string) {
    kind in ["Add", "Sub", "Mult", "Div", "FloorDiv", "Mod", "Pow", "UAdd", "USub", "Load"]
  }

  predicate IsBuiltin(name: string) {
    name in ["abs", "round", "min", "max"]
  }

  datatype Rejection =
    | ForbiddenExpression(kind: string)
    | ForbiddenName(id: string)
    | ForbiddenAttribute
    | ForbiddenCall

  /** The math module's dictionary, as the running interpreter has it. */
  type MathDict = map<string, Value>

  predicate Private(name: string) {
    name != "" && name[0] == '_'
  }

  function MathNames(math: MathDict): set<string> {
    set k | k in math && !Private(k)
  }

  function MathFunctions(math: MathDict): set<string> {
    set k | k in math && !Private(k) && math[k].Function?
  }

  predicate IsMath(n: Node) {
    n.Name? && n.id == "math"
  }

  predicate AllowedCall(math: MathDict, n: Node)
    requires n.Call?
  {
    if n.keywords != [] then false
    else if n.func.Name? then IsBuiltin(n.func.id) || n.func.id in MathFunctions(math)
    else if n.func.Attribute? then IsMath(n.func.value) && n.func.attr in MathFunctions(math) && !Private(n.func.attr)
    else false
  }

  function Check(math: MathDict, n: Node): Option<Rejection> {
    if n.Other? && !IsOperator(n.kind) then Some(ForbiddenExpression(n.kind))
    else if n.Name? && !(n.id == "x" || n.id == "math" || IsBuiltin(n.id) || n.id in MathNames(math))
        then Some(ForbiddenName(n.id))
    else if n.Attribute? && !(IsMath(n.value) && n.attr in MathNames(math) && !Private(n.attr))
        then Some(ForbiddenAttribute)
    else if n.Call? && !AllowedCall(math, n) then Some(ForbiddenCall)
    else None
  }

  /** Every node of the tree is allowed. */
  predicate Accepted(math: MathDict, n: Node) {
    Check(math, n).None? && forall i :: 0 <= i < |Children(n)| ==> Accepted(math, Children(n)[i])
  }

  function ChildSizes(n: Node, k: nat): (r: nat)
    requires k <= |Children(n)|
    decreases n, k
  {
    if k == 0 then 0 else ChildSizes(n, k - 1) + Size(Children(n)[k - 1])
  }

  function Size(n: Node): (r: nat)
    ensures r > 0
    decreases n, |Children(n)| + 1
  {
    1 + ChildSizes(n, |Children(n)|)
  }

  function TotalSize(s: seq<Node>): nat {
    if s == [] then 0 else TotalSize(s[..|s| - 1]) + Size(s[|s| - 1])
  }

  lemma {:induction false} TotalSizeAppend(a: seq<Node>, b: seq<Node>)
    ensures TotalSize(a + b) == TotalSize(a) + TotalSize(b)
  {
    if b == [] {
      assert a + b == a;
    } else {
      TotalSizeAppend(a, b[..|b| - 1]);
      assert (a + b)[..|a + b| - 1] == a + b[..|b| - 1];
    }
  }

  lemma {:induction false} ChildrenSize(n: Node, k: nat)
    requires k <= |Children(n)|
    ensures TotalSize(Children(n)[..k]) == ChildSizes(n, k)
  {
    if k > 0 {
      ChildrenSize(n, k - 1);
      assert Children(n)[..k][..k - 1] == Children(n)[..k - 1];
    }
  }

  /** Taking one node off the list and adding its children makes the work smaller. */
  lemma StepShrinks(todo: seq<Node>)
    requires todo != []
    ensures TotalSize(todo[1..] + Children(todo[0])) < TotalSize(todo)
  {
    var (n, rest, children) := (todo[0], todo[1..], Children(todo[0]));
    TotalSizeAppend(rest, children);
    TotalSizeAppend([n], rest);
    assert todo == [n] + rest;
    ChildrenSize(n, |children|);
    assert children[..|children|] == children;
    SingleSize(n);
  }

  lemma SingleSize(n: Node)
    ensures TotalSize([n]) == Size(n)
  {
    assert [n][..0] == [];
  }

  /** The nodes in the order ast.walk yields them: first in, first out. */
  function Walk(todo: seq<Node>): seq<Node>
    decreases TotalSize(todo)
  {
    if todo == [] then []
    else
      StepShrinks(todo);
      [todo[0]] + Walk(todo[1..] + Children(todo[0]))
  }

  function FirstRejection(math: MathDict, nodes: seq<Node>): Option<Rejection> {
    if nodes == [] then None
    else if Check(math, nodes[0]).Some? then Check(math, nodes[0])
    else FirstRejection(math, nodes[1..])
  }

  method ValidateTree(math: MathDict, tree: Node) returns (error: Option<Rejection>)
    ensures error == FirstRejection(math, Walk([tree]))
    ensures error.None? <==> Accepted(math, tree)
  {
    WalkAccepts(math, [tree]);
    var todo := [tree];
    while todo != []
      invariant FirstRejection(math, Walk([tree])) == FirstRejection(math, Walk(todo))
      decreases TotalSize(todo)
    {
      var node := todo[0];
      StepShrinks(todo);
      var walked := Walk(todo);
      assert walked[0] == node && walked[1..] == Walk(todo[1..] + Children(node));
      todo := todo[1..] + Children(node);
      if Check(math, node).Some? {
        return Check(math, node);
      }
    }
    return None;
  }

  lemma AcceptedByChildren(math: MathDict, n: Node)
    ensures Accepted(math, n) <==> Check(math, n).None? && forall t :: t in Children(n) ==> Accepted(math, t)
  {
    if forall t :: t in Children(n) ==> Accepted(math, t) {
      forall i | 0 <= i < |Children(n)| ensures Accepted(math, Children(n)[i]) {
        assert Children(n)[i] in Children(n);
      }
    }
  }

  /** The walk finds nothing to reject exactly when every tree on the list is acceptable throughout. */
  lemma {:induction false} WalkAccepts(math: MathDict, todo: seq<Node>)
    ensures FirstRejection(math, Walk(todo)).None? <==> forall t :: t in todo ==> Accepted(math, t)
    decreases TotalSize(todo)
  {
    if todo == [] {
      assert Walk(todo) == [];
    } else {
      var (n, children) := (todo[0], Children(todo[0]));
      var rest := todo[1..] + children;
      StepShrinks(todo);
      WalkAccepts(math, rest);
      AcceptedByChildren(math, n);
      var walked := Walk(todo);
      assert walked[0] == n && walked[1..] == Walk(rest);
      assert todo == [n] + todo[1..];
      assert (forall t :: t in rest ==> Accepted(math, t))
             <==> (forall t :: t in todo[1..] ==> Accepted(math, t)) && forall t :: t in children ==> Accepted(math, t);
    }
  }

  // ---- evaluation ----------------------------------------------------------------------------------------------

  /** What the interpreter does with operators and allowed functions; any of it may raise. */
  datatype Runtime = Runtime(
    math: MathDict,
    unary: (string, Value) -> Result<Value, string>,
    binary: (string, Value, Value) -> Result<Value, string>,
    call: (string, seq<Value>) -> Result<Value, string>,
    toFloat: Value -> Result<FloatValue, ConversionError>,
    fitsFloat: int -> bool)

  datatype ConversionError = NotANumber | Uncaught(exception: string)

  /** Raised is an exception of the interpreter; the others mean that evaluation left the sandbox. */
  datatype Failure =
    | Raised(exception: string)
    | UnboundName(id: string)
    | ForeignAttribute(attr: string)
    | ForeignCall
    | ForeignNode(kind: string)

  /** Nothing in the math module is called like one of the formula's own names. */
  ghost predicate Ordinary(math: MathDict) {
    (forall k :: k in math ==> k != "x" && k != "math" && !IsBuiltin(k))
    && forall k :: k in math && math[k].Function? ==> math[k].name == k
  }

  /** The names a formula is evaluated with. */
  function Globals(math: MathDict, x: Value): map<string, Value> {
    map["x" := x, "abs" := Function("abs"), "round" := Function("round"), "min" := Function("min"), "max" :=
        Function("max"), "math" := MathModule]
    + map k | k in math && !Private(k) :: math[k]
  }

  predicate AllowedFunction(math: MathDict, name: string) {
    IsBuiltin(name) || name in MathFunctions(math)
  }

  function Attempt(r: Result<Value, string>): Result<Value, Failure> {
    match r
    case Ok(v) => Ok(v)
    case Err(exception) => Err(Raised(exception))
  }

  function OperatorKind(op: Node): string {
    if op.Other? then op.kind else ""
  }

  function Eval(rt: Runtime, env: map<string, Value>, n: Node): Result<Value, Failure>
    decreases n, 0
  {
    match n
    case Expression(body) => Eval(rt, env, body)
    case Constant(v) => Ok(v)
    case Name(id, _) => if id in env then Ok(env[id]) else Err(UnboundName(id))
    case UnaryOp(op, operand) =>
      if !(op.Other? && IsOperator(op.kind)) then Err(ForeignNode(OperatorKind(op)))
      else
        var v :- Eval(rt, env, operand);
        Attempt(rt.unary(op.kind, v))
    case BinOp(left, op, right) =>
      if !(op.Other? && IsOperator(op.kind)) then Err(ForeignNode(OperatorKind(op)))
      else
        var a :- Eval(rt, env, left);
        var b :- Eval(rt, env, right);
        Attempt(rt.binary(op.kind, a, b))
    case Attribute(value, attr, _) =>
      var v :- Eval(rt, env, value);
      if v.MathModule? && attr in rt.math && !Private(attr) then Ok(rt.math[attr]) else Err(ForeignAttribute(attr))
    case Call(func, args, keywords) =>
      var f :- Eval(rt, env, func);
      var values :- EvalArgs(rt, env, n, |args|);
      if keywords == [] && f.Function? && AllowedFunction(rt.math, f.name) then Attempt(rt.call(f.name, values))
          else Err(ForeignCall)
    case Other(kind, _) => Err(ForeignNode(kind))
  }

  /** The first k arguments of a call, from left to right. */
  function EvalArgs(rt: Runtime, env: map<string, Value>, n: Node, k: nat): Result<seq<Value>, Failure>
    requires n.Call? && k <= |n.args|
    decreases n, 0, k
  {
    if k == 0 then Ok([])
    else
      var before :- EvalArgs(rt, env, n, k - 1);
      var v :- Eval(rt, env, n.args[k - 1]);
      Ok(before + [v])
  }

  predicate InSandbox<T>(r: Result<T, Failure>) {
    r.Ok? || r.error.Raised?
  }

  /** Expressions proper; operators and contexts stand only where the grammar puts them. */
  predicate IsExpression(n: Node)
  {
    match n
    case Expression(body) => IsExpression(body)
    case BinOp(left, op, right) => IsExpression(left) && op.Other? && IsExpression(right)
    case UnaryOp(op, operand) => op.Other? && IsExpression(operand)
    case Constant(_) => true
    case Name(_, _) => true
    case Attribute(value, _, _) => IsExpression(value)
    case Call(func, args, _) => IsExpression(func) && forall i :: 0 <= i < |args| ==> IsExpression(args[i])
    case Other(kind, _) => !IsOperator(kind)
  }

  /**
    Soundness: evaluating an accepted tree gives a value or an exception of the
    interpreter. Every name it meets is bound, every attribute is one of math's, every
    node is of an allowed kind, and every callee is an allowed function.
   */
  lemma {:induction false} AcceptedStaysInSandbox(rt: Runtime, x: Value, n: Node)
    requires Ordinary(rt.math) && IsExpression(n) && Accepted(rt.math, n)
    ensures InSandbox(Eval(rt, Globals(rt.math, x), n))
    decreases n, 1
  {
    var env := Globals(rt.math, x);
    var children := Children(n);
    match n
    case Expression(body) =>
      assert children[0] == body;
      AcceptedStaysInSandbox(rt, x, body);
    case BinOp(left, op, right) =>
      assert children[0] == left && children[1] == op && children[2] == right;
      AcceptedStaysInSandbox(rt, x, left);
      AcceptedStaysInSandbox(rt, x, right);
    case UnaryOp(op, operand) =>
      assert children[0] == op && children[1] == operand;
      AcceptedStaysInSandbox(rt, x, operand);
    case Attribute(value, attr, _) =>
      assert Eval(rt, env, value) == Ok(MathModule) by { MathIsBound(rt, x, value); }
    case Call(func, args, keywords) =>
      assert children[0] == func;
      CalleeIsAllowed(rt, x, n);
      ArgumentsStayInSandbox(rt, x, n, |args|);
    case Name(_, _) =>
    case Constant(_) =>
    case Other(_, _) =>
  }

  lemma MathIsBound(rt: Runtime, x: Value, n: Node)
    requires Ordinary(rt.math) && IsMath(n)
    ensures Eval(rt, Globals(rt.math, x), n) == Ok(MathModule)
  {
  }

  lemma CalleeIsAllowed(rt: Runtime, x: Value, n: Node)
    requires Ordinary(rt.math) && n.Call? && AllowedCall(rt.math, n)
    ensures var f := Eval(rt, Globals(rt.math, x), n.func);
            f.Ok? && f.value.Function? && AllowedFunction(rt.math, f.value.name)
  {
    if n.func.Attribute? {
      MathIsBound(rt, x, n.func.value);
    }
  }

  lemma {:induction false} ArgumentsStayInSandbox(rt: Runtime, x: Value, n: Node, k: nat)
    requires Ordinary(rt.math) && n.Call? && IsExpression(n) && Accepted(rt.math, n) && k <= |n.args|
    ensures InSandbox(EvalArgs(rt, Globals(rt.math, x), n, k))
    decreases n, 0, k
  {
    if k > 0 {
      ArgumentsStayInSandbox(rt, x, n, k - 1);
      assert Children(n)[k] == n.args[k - 1];
      AcceptedStaysInSandbox(rt, x, n.args[k - 1]);
    }
  }

  // ---- applying a formula --------------------------------------------------------------------------------------

  /** The number the formula sees as x, or the exception its conversion raises. */
  function Convert(rt: Runtime, value: Value): Result<Value, ConversionError> {
    match value
    case Bool(b) => Ok(Float(FiniteFloat(if b then 1.0 else 0.0)))
    case Int(i) => Ok(Int(i))
    case _ => match rt.toFloat(value)
      case Ok(f) => Ok(Float(f))
      case Err(e) => Err(e)
  }

  predicate IsFiniteNumber(rt: Runtime, v: Value) {
    v.Bool? || (v.Int? && rt.fitsFloat(v.i)) || (v.Float? && v.f.FiniteFloat?)
  }

  /** A stripped formula, as parsed: empty, not an expression, or a tree. */
  datatype Parsed = Empty | Malformed(message: string) | Tree(tree: Node)

  method ApplyFormula(rt: Runtime, formula: Parsed, value: Value) returns (r: Result<Value, string>)
    ensures r == Applied(rt, formula, value)
  {
    if formula.Empty? {
      return Ok(value);
    }
    match Convert(rt, value) {
      case Err(NotANumber) => return Ok(value);
      case Err(Uncaught(exception)) => return Err(exception);
      case Ok(x) =>
        if formula.Malformed? {
          return Ok(value);
        }
        var rejection := ValidateTree(rt.math, formula.tree);
        if rejection.Some? {
          return Ok(value);
        }
        match Eval(rt, Globals(rt.math, x), formula.tree) {
          case Err(_) => return Ok(value);
          case Ok(result) =>
            if !(result.Bool? || result.Int? || result.Float?) {
              return Ok(value);
            }
            // Testing for NaN converts to float: an integer too large for one raises, and is caught.
            if result.Int? && !rt.fitsFloat(result.i) {
              return Ok(value);
            }
            if result.Float? && !result.f.FiniteFloat? {
              return Ok(value);
            }
            return Ok(result);
        }
    }
  }

  function Applied(rt: Runtime, formula: Parsed, value: Value): Result<Value, string> {
    if formula.Empty? then Ok(value)
    else match Convert(rt, value)
      case Err(NotANumber) => Ok(value)
      case Err(Uncaught(exception)) => Err(exception)
      case Ok(x) =>
        if formula.Tree? && Accepted(rt.math, formula.tree) then
          var result := Eval(rt, Globals(rt.math, x), formula.tree);
          Ok(if result.Ok? && IsFiniteNumber(rt, result.value) then result.value else value)
        else Ok(value)
  }

  /**
    The result is a finite number or the value itself; whatever the formula raises is
    swallowed. The one way to fail is a value whose own conversion raises something
    other than a type or value error.
   */
  lemma AppliedIsFiniteOrOriginal(rt: Runtime, formula: Parsed, value: Value)
    ensures var r := Applied(rt, formula, value);
            && (r.Ok? ==> r.value == value || IsFiniteNumber(rt, r.value))
            && (r.Err? <==>
                !formula.Empty? && !value.Bool? && !value.Int? && rt.toFloat(value).Err?
                && rt.toFloat(value).error.Uncaught?)
  {
    match Convert(rt, value)
    case Ok(_) =>
    case Err(NotANumber) =>
    case Err(Uncaught(_)) =>
  }

  const FRACTION := Object("fractions.Fraction(10 ** 400)")

  /** A runtime in which nothing but that fraction can be met; like the interpreter's, its float() overflows on it. */
  function Overflowing(): Runtime {
    Runtime(map[], (op, v) => Ok(v), (op, v, w) => Ok(v), (f, vs) => Err("TypeError"),
            v => if v == FRACTION then Err(Uncaught("OverflowError")) else Err(NotANumber), i => true)
  }

  /** It does raise: a rational number beyond the range of floats, whatever the formula. */
  lemma ConversionCanEscape(formula: Parsed)
    requires !formula.Empty?
    ensures Applied(Overflowing(), formula, FRACTION) == Err("OverflowError")
  {
    assert Overflowing().toFloat(FRACTION) == Err(Uncaught("OverflowError"));
  }

  /** A formula changes a value only if it was accepted, and then only to what evaluation inside the sandbox gave. */
  lemma ChangesComeFromTheSandbox(rt: Runtime, formula: Parsed, value: Value)
    requires Ordinary(rt.math) && (formula.Tree? ==> IsExpression(formula.tree))
    requires Applied(rt, formula, value).Ok? && Applied(rt, formula, value) != Ok(value)
    ensures formula.Tree? && Accepted(rt.math, formula.tree) && Convert(rt, value).Ok?
    ensures var result := Eval(rt, Globals(rt.math, Convert(rt, value).value), formula.tree);
            InSandbox(result) && Applied(rt, formula, value).value == result.value
  {
    AcceptedStaysInSandbox(rt, Convert(rt, value).value, formula.tree);
  }

  // ---- what can be written, and what it gives --------------------------------------------------------------------

  /** A name can be written exactly if it is bound, and what it is bound to. */
  lemma NamesExactly(math: MathDict, x: Value, id: string, load: Node)
    requires Ordinary(math)
    ensures var env := Globals(math, x);
            && (Check(math, Name(id, load)).None? <==> id in env)
            && (id in env <==> || id in {"x", "math", "abs", "round", "min", "max"}
                               || (id in math && !("_" <= id)))
            && env["x"] == x && env["math"] == MathModule
            && (id in {"abs", "round", "min", "max"} ==> env[id] == Function(id))
            && (id in math && !("_" <= id) ==> id in env && env[id] == math[id])
  {
    assert Private(id) <==> "_" <= id;
  }

  /** The one attribute that can be written is a public one of math. */
  lemma AttributesExactly(math: MathDict, value: Node, attr: string, load: Node)
    ensures Check(math, Attribute(value, attr, load)).None?
            <==> value.Name? && value.id == "math" && attr in math && !("_" <= attr)
  {
    assert Private(attr) <==> "_" <= attr;
  }

  /** What can be called is exactly a name bound to a function, or a public function of math, without keywords. */
  lemma CallsExactly(math: MathDict, x: Value, func: Node, args: seq<Node>, keywords: seq<Node>)
    requires Ordinary(math) && !x.Function?
    ensures var env := Globals(math, x);
            Check(math, Call(func, args, keywords)).None?
            <==> && keywords == []
                 && (|| (func.Name? && func.id in env && env[func.id].Function?)
                     || (func.Attribute? && func.value.Name? && func.value.id == "math"
                         && func.attr in math && !("_" <= func.attr) && math[func.attr].Function?))
  {
    if func.Name? {
      NamesExactly(math, x, func.id, func.ctx);
    } else if func.Attribute? {
      assert Private(func.attr) <==> "_" <= func.attr;
    }
  }

  /** Of the other kinds of node, the arithmetic operators and the loading context can be written. */
  lemma OperatorsExactly(math: MathDict, kind: string, parts: seq<Node>)
    ensures Check(math, Other(kind, parts)).None?
            <==> kind in {"Add", "Sub", "Mult", "Div", "FloorDiv", "Mod", "Pow", "UAdd", "USub", "Load"}
  {
  }

  /** Whatever the grammar of expressions builds, with operators only in their places, is an expression here. */
  lemma GrammarIsCovered(a: Node, op: Node, b: Node, args: seq<Node>, keywords: seq<Node>, c: Value, id: string)
    requires IsExpression(a) && IsExpression(b) && op.Other? && forall i :: 0 <= i < |args| ==> IsExpression(args[i])
    ensures IsExpression(Name(id, op)) && IsExpression(Constant(c)) && IsExpression(Attribute(a, id, op))
    ensures IsExpression(Expression(a)) && IsExpression(UnaryOp(op, a)) && IsExpression(BinOp(a, op, b))
    ensures IsExpression(Call(a, args, keywords))
    ensures id !in {"Add", "Sub", "Mult", "Div", "FloorDiv", "Mod", "Pow", "UAdd", "USub", "Load"} ==>
              IsExpression(Other(id, args))
  {
  }

  /** The value of a formula that evaluates to v: v if it is a finite number, the old value otherwise. */
  function Kept(rt: Runtime, value: Value, result: Result<Value, string>): Value {
    match result
    case Err(_) => value
    case Ok(Bool(b)) => Bool(b)
    case Ok(Int(i)) => if rt.fitsFloat(i) then Int(i) else value
    case Ok(Float(FiniteFloat(r))) => Float(FiniteFloat(r))
    case Ok(_) => value
  }

  const LOAD := Other("Load", [])

  /** The formula "x" gives the value as a number: booleans as 0 and 1, integers exactly, anything else as a float. */
  lemma IdentityFormula(rt: Runtime, value: Value)
    requires Ordinary(rt.math)
    ensures Applied(rt, Tree(Expression(Name("x", LOAD))), value)
            == match value
               case Bool(b) => Ok(Float(FiniteFloat(if b then 1.0 else 0.0)))
               case Int(i) => Ok(Int(i))
               case _ =>
                 match rt.toFloat(value)
                 case Ok(f) => Ok(Kept(rt, value, Ok(Float(f))))
                 case Err(NotANumber) => Ok(value)
                 case Err(Uncaught(exception)) => Err(exception)
  {
    var name := Name("x", LOAD);
    assert Children(LOAD) == [] && Children(name) == [LOAD] && Children(Expression(name)) == [name];
    assert Accepted(rt.math, LOAD) && Accepted(rt.math, name) && Accepted(rt.math, Expression(name));
    match Convert(rt, value)
    case Err(NotANumber) =>
    case Err(Uncaught(_)) =>
    case Ok(x) => NamesExactly(rt.math, x, "x", LOAD);
  }

  lemma AcceptedBinary(math: MathDict, left: Node, op: Node, right: Node)
    ensures Accepted(math, BinOp(left, op, right))
            <==> Accepted(math, left) && Accepted(math, op) && Accepted(math, right)
  {
    var n := BinOp(left, op, right);
    assert Children(n)[0] == left && Children(n)[1] == op && Children(n)[2] == right;
  }

  /** An operator is applied to its operands' values, the left one first; a failing operand fails the whole. */
  lemma OperatorsApply(rt: Runtime, env: map<string, Value>, left: Node, kind: string, right: Node, v: Value, w: Value)
    requires kind in {"Add", "Sub", "Mult", "Div", "FloorDiv", "Mod", "Pow"}
    ensures var n := BinOp(left, Other(kind, []), right);
            && (Accepted(rt.math, n) <==> Accepted(rt.math, left) && Accepted(rt.math, right))
            && (Eval(rt, env, left) == Ok(v) && Eval(rt, env, right) == Ok(w) ==>
                  Eval(rt, env, n) == match rt.binary(kind, v, w)
                                      case Ok(r) => Ok(r)
                                      case Err(e) => Err(Raised(e)))
            && (Eval(rt, env, left).Err? ==> Eval(rt, env, n) == Eval(rt, env, left))
            && (Eval(rt, env, left) == Ok(v) && Eval(rt, env, right).Err? ==>
                  Eval(rt, env, n) == Eval(rt, env, right))
  {
    AcceptedBinary(rt.math, left, Other(kind, []), right);
    OperatorsExactly(rt.math, kind, []);
  }

  lemma SignsApply(rt: Runtime, env: map<string, Value>, kind: string, operand: Node, v: Value)
    requires kind in {"UAdd", "USub"}
    ensures var n := UnaryOp(Other(kind, []), operand);
            && (Accepted(rt.math, n) <==> Accepted(rt.math, operand))
            && (Eval(rt, env, operand) == Ok(v) ==>
                  Eval(rt, env, n) == match rt.unary(kind, v)
                                      case Ok(r) => Ok(r)
                                      case Err(e) => Err(Raised(e)))
            && (Eval(rt, env, operand).Err? ==> Eval(rt, env, n) == Eval(rt, env, operand))
  {
    var n := UnaryOp(Other(kind, []), operand);
    OperatorsExactly(rt.math, kind, []);
    assert Children(n)[0] == Other(kind, []) && Children(n)[1] == operand;
    assert Children(Other(kind, [])) == [];
  }

  /** A function is called with the values of its arguments, in their order. */
  lemma {:induction false} ArgumentsInOrder(
    rt: Runtime, env: map<string, Value>, n: Node, values: seq<Value>, k: nat)
    requires n.Call? && |values| == |n.args| && k <= |n.args|
    requires forall i :: 0 <= i < |n.args| ==> Eval(rt, env, n.args[i]) == Ok(values[i])
    ensures EvalArgs(rt, env, n, k) == Ok(values[..k])
    decreases k
  {
    if k > 0 {
      ArgumentsInOrder(rt, env, n, values, k - 1);
      assert values[..k] == values[..k - 1] + [values[k - 1]];
    }
  }

  lemma CallsApply(rt: Runtime, env: map<string, Value>, func: Node, name: string, args: seq<Node>, values: seq<Value>)
    requires Eval(rt, env, func) == Ok(Function(name)) && AllowedFunction(rt.math, name) && |values| == |args|
    requires forall i :: 0 <= i < |args| ==> Eval(rt, env, args[i]) == Ok(values[i])
    ensures Eval(rt, env, Call(func, args, [])) == match rt.call(name, values)
                                                   case Ok(r) => Ok(r)
                                                   case Err(e) => Err(Raised(e))
  {
    ArgumentsInOrder(rt, env, Call(func, args, []), values, |args|);
    assert values[..|args|] == values;
  }

  /** Constants are themselves, and math's attributes those of the module. */
  lemma AtomsApply(rt: Runtime, env: map<string, Value>, c: Value, attr: string)
    requires "math" in env && env["math"] == MathModule
    ensures Eval(rt, env, Constant(c)) == Ok(c) && Accepted(rt.math, Constant(c))
    ensures attr in rt.math && !("_" <= attr) ==>
              Eval(rt, env, Attribute(Name("math", LOAD), attr, LOAD)) == Ok(rt.math[attr])
  {
    assert Private(attr) <==> "_" <= attr;
  }

  /** The whole: an accepted formula gives what it evaluates to on the number, any other leaves the value as it is. */
  lemma AppliedExactly(rt: Runtime, formula: Parsed, value: Value, x: Value, result: Result<Value, Failure>)
    requires Convert(rt, value) == Ok(x) && formula.Tree?
    requires result == Eval(rt, Globals(rt.math, x), formula.tree)
    ensures Applied(rt, formula, value)
            == Ok(if Accepted(rt.math, formula.tree)
                  then Kept(rt, value, if result.Ok? then Ok(result.value) else Err("")) else value)
  {
    if result.Ok? {
      match result.value
      case Float(FiniteFloat(_)) =>
      case _ =>
    }
  }
}
