/** The assertion language `variable op value`: splitting, admission and evaluation. Number syntax
    belongs to `strconv.ParseFloat`, which enters as the parameter `parse`. */
module Assertions {
  import opened Common
  import opened Text

  datatype Result<+T> = Ok(value: T) | Err(error: Error)
  datatype Error = NoOperator | InvalidValue | UnknownVariable | UnknownOperator

  /** A float64 without its rounding. */
  datatype Float = Finite(r: real) | PosInf | NegInf | NaN

  /** Comparison as floats have it: nothing compares with NaN, not even itself. */
  predicate Less(a: Float, b: Float) {
    match (a, b)
    case (Finite(x), Finite(y)) => x < y
    case (NegInf, Finite(_)) => true
    case (NegInf, PosInf) => true
    case (Finite(_), PosInf) => true
    case _ => false
  }

  predicate Same(a: Float, b: Float) {
    a == b && !a.NaN?
  }

  datatype Parts = Parts(varName: string, op: string, value: Float)

  const Candidates: seq<string> := ["<=", ">=", "!=", "<", ">", "="]

  /** The parts around the first candidate of the list that occurs in `expr` at all. */
  function SplitWith(expr: string, candidates: seq<string>, parse: string -> Option<Float>): Result<Parts> {
    if candidates == [] then Err(NoOperator)
    else
      match Cut(expr, candidates[0])
      case None => SplitWith(expr, candidates[1..], parse)
      case Some((before, after)) =>
        match parse(TrimSpace(after))
        case None => Err(InvalidValue)
        case Some(x) => Ok(Parts(TrimSpace(before), candidates[0], x))
  }

  method SplitAssertionExpr(expr: string, parse: string -> Option<Float>) returns (r: Result<Parts>)
    ensures r == SplitWith(expr, Candidates, parse)
  {
    for i := 0 to |Candidates|
      invariant SplitWith(expr, Candidates, parse) == SplitWith(expr, Candidates[i..], parse)
    {
      assert Candidates[i..][1..] == Candidates[i + 1..];
      var cut := Cut(expr, Candidates[i]);
      if cut.None? {
        continue;
      }
      var varName := TrimSpace(cut.value.0);
      var value := parse(TrimSpace(cut.value.1));
      if value.None? {
        return Err(InvalidValue);
      }
      return Ok(Parts(varName, Candidates[i], value.value));
    }
    return Err(NoOperator);
  }

  // ----- operators and their meaning

  datatype Op = Le | Ge | Ne | Lt | Gt | Eq

  function Sign(op: Op): string {
    match op
    case Le => "<="
    case Ge => ">="
    case Ne => "!="
    case Lt => "<"
    case Gt => ">"
    case Eq => "="
  }

  predicate Holds(op: Op, a: Float, b: Float) {
    match op
    case Le => Less(a, b) || Same(a, b)
    case Ge => Less(b, a) || Same(a, b)
    case Ne => !Same(a, b)
    case Lt => Less(a, b)
    case Gt => Less(b, a)
    case Eq => Same(a, b)
  }

  predicate OperatorChar(c: char) {
    c in "<>=!"
  }

  ghost predicate Plain(s: string) {
    forall c :: c in s ==> !OperatorChar(c)
  }

  /** The position of an operator among the candidates. */
  function Rank(op: Op): (k: nat)
    ensures k < |Candidates| && Candidates[k] == Sign(op)
  {
    match op case Le => 0 case Ge => 1 case Ne => 2 case Lt => 3 case Gt => 4 case Eq => 5
  }

  lemma CutAtOperator(v: string, op: Op, l: string)
    requires Plain(v)
    ensures Cut(v + Sign(op) + l, Sign(op)) == Some((v, l))
  {
    assert v + Sign(op) + l == v + (Sign(op) + l);
    assert OperatorChar(Sign(op)[0]);
    CutSkips(v, Sign(op) + l, Sign(op));
    assert Sign(op) <= Sign(op) + l && (Sign(op) + l)[|Sign(op)|..] == l;
    assert v + "" == v;
  }

  /** `<` is not taken for `<=`, nor `>` for `>=`. */
  lemma CutLonger(v: string, c: char, l: string)
    requires c != '=' && c !in v && c !in l && '=' !in l
    ensures Cut(v + [c] + l, [c, '=']) == None
  {
    assert v + [c] + l == v + ([c] + l);
    CutSkips(v, [c] + l, [c, '=']);
    assert l != "" ==> l[0] in l;
    assert !([c, '='] <= [c] + l);
    assert ([c] + l)[1..] == l;
    CutAbsent(l, [c, '=']);
  }

  /** No candidate tried before the printed operator occurs in the text. */
  lemma CutEarlier(v: string, op: Op, l: string, j: nat)
    requires Plain(v) && Plain(l) && j < Rank(op)
    ensures Cut(v + Sign(op) + l, Candidates[j]) == None
  {
    var c := Candidates[j][0];
    assert OperatorChar(c) && OperatorChar('=');
    if (op.Lt? && j == 0) || (op.Gt? && j == 1) {
      CutLonger(v, c, l);
      assert Sign(op) == [c] && Candidates[j] == [c, '='];
    } else {
      assert c !in Sign(op);
      CutAbsent(v + Sign(op) + l, Candidates[j]);
    }
  }

  /** Every printed `var op literal`, padded with any white space, splits back into its parts. */
  lemma SplitPrinted(p0: string, v: string, p1: string, op: Op, p2: string, l: string, p3: string,
                     parse: string -> Option<Float>)
    requires Plain(v) && Plain(l) && Trimmed(v, IsSpace) && Trimmed(l, IsSpace)
    requires All(p0, IsSpace) && All(p1, IsSpace) && All(p2, IsSpace) && All(p3, IsSpace)
    ensures SplitWith(p0 + v + p1 + Sign(op) + (p2 + l + p3), Candidates, parse) ==
              if parse(l).None? then Err(InvalidValue) else Ok(Parts(v, Sign(op), parse(l).value))
  {
    var left, right := p0 + v + p1, p2 + l + p3;
    var expr := left + Sign(op) + right;
    assert Plain(left) && Plain(right) by {
      assert forall c :: IsSpace(c) ==> !OperatorChar(c);
    }
    TrimPadded(p0, v, p1, IsSpace);
    TrimPadded(p2, l, p3, IsSpace);
    CutAtOperator(left, op, right);
    forall j | 0 <= j < Rank(op) ensures Cut(expr, Candidates[j]).None? {
      CutEarlier(left, op, right, j);
    }
    SkipTo(expr, parse, Rank(op), 0);
    assert Candidates[0..] == Candidates;
  }

  lemma {:induction false} SkipTo(expr: string, parse: string -> Option<Float>, k: nat, i: nat)
    requires i <= k < |Candidates|
    requires forall j | i <= j < k :: Cut(expr, Candidates[j]).None?
    requires Cut(expr, Candidates[k]).Some?
    ensures SplitWith(expr, Candidates[i..], parse) ==
              var c := Cut(expr, Candidates[k]).value;
              var x := parse(TrimSpace(c.1));
              if x.None? then Err(InvalidValue) else Ok(Parts(TrimSpace(c.0), Candidates[k], x.value))
    decreases k - i
  {
    if i < k {
      assert Candidates[i..][1..] == Candidates[i + 1..];
      SkipTo(expr, parse, k, i + 1);
    }
  }

  /** The parts of `expr` around its first `op`. */
  function SplitAt(expr: string, op: string, parse: string -> Option<Float>): Result<Parts>
    requires Cut(expr, op).Some?
  {
    var (before, after) := Cut(expr, op).value;
    var x := parse(TrimSpace(after));
    if x.None? then Err(InvalidValue) else Ok(Parts(TrimSpace(before), op, x.value))
  }

  /** For every text: it is split at its first `<=`, failing that at its first `>=`, and so on; without
      an operator it does not split. */
  lemma SplitPriority(expr: string, parse: string -> Option<Float>)
    ensures SplitWith(expr, Candidates, parse) ==
              if Cut(expr, "<=").Some? then SplitAt(expr, "<=", parse)
              else if Cut(expr, ">=").Some? then SplitAt(expr, ">=", parse)
              else if Cut(expr, "!=").Some? then SplitAt(expr, "!=", parse)
              else if Cut(expr, "<").Some? then SplitAt(expr, "<", parse)
              else if Cut(expr, ">").Some? then SplitAt(expr, ">", parse)
              else if Cut(expr, "=").Some? then SplitAt(expr, "=", parse)
              else Err(NoOperator)
  {
    assert Candidates[0..] == Candidates;
    if k :| 0 <= k < |Candidates| && Cut(expr, Candidates[k]).Some?
            && forall j | 0 <= j < k :: Cut(expr, Candidates[j]).None? {
      SkipTo(expr, parse, k, 0);
    } else {
      NoneFound(expr, parse, 0);
    }
  }

  /** Where no candidate is the first to occur, none occurs. */
  lemma {:induction false} NoneFound(expr: string, parse: string -> Option<Float>, i: nat)
    requires i <= |Candidates| && forall j | 0 <= j < i :: Cut(expr, Candidates[j]).None?
    requires !exists k | 0 <= k < |Candidates| :: Cut(expr, Candidates[k]).Some?
                                               && forall j | 0 <= j < k :: Cut(expr, Candidates[j]).None?
    ensures SplitWith(expr, Candidates[i..], parse) == Err(NoOperator)
    ensures forall j | i <= j < |Candidates| :: Cut(expr, Candidates[j]).None?
    decreases |Candidates| - i
  {
    if i < |Candidates| {
      assert Cut(expr, Candidates[i]).None?;
      assert Candidates[i..][1..] == Candidates[i + 1..];
      NoneFound(expr, parse, i + 1);
    }
  }

  // ----- admission and evaluation

  const HTTPVars: seq<string> := ["status_code", "duration_ms", "ssl_expiry_days"]
  const DNSVars: seq<string> := ["answer_count", "duration_ms"]
  const TCPVars: seq<string> := ["duration_ms"]

  function ValidateAssertionExpr(expr: string, vars: seq<string>, parse: string -> Option<Float>): Result<()> {
    match SplitWith(expr, Candidates, parse)
    case Err(e) => Err(e)
    case Ok(parts) => if parts.varName in vars then Ok(()) else Err(UnknownVariable)
  }

  type Context = map<string, Float>

  function HTTPContext(statusCode: int, durationMs: int, sslExpiryDays: Option<real>): Context {
    map["status_code" := Finite(statusCode as real),
        "duration_ms" := Finite(durationMs as real),
        "ssl_expiry_days" := Finite(if sslExpiryDays.Some? then sslExpiryDays.value else -1.0)]
  }

  function DNSContext(answerCount: int, durationMs: int): Context {
    map["answer_count" := Finite(answerCount as real), "duration_ms" := Finite(durationMs as real)]
  }

  function TCPContext(durationMs: int): Context {
    map["duration_ms" := Finite(durationMs as real)]
  }

  function EvalAssertion(expr: string, ctx: Context, parse: string -> Option<Float>): Result<bool> {
    match SplitWith(expr, Candidates, parse)
    case Err(e) => Err(e)
    case Ok(Parts(varName, op, value)) =>
      if varName !in ctx then Err(UnknownVariable)
      else
        Compare(ctx[varName], op, value)
  }

  function Compare(actual: Float, op: string, value: Float): Result<bool> {
    if op == "=" then Ok(Same(actual, value))
    else if op == "!=" then Ok(!Same(actual, value))
    else if op == "<" then Ok(Less(actual, value))
    else if op == "<=" then Ok(Less(actual, value) || Same(actual, value))
    else if op == ">" then Ok(Less(value, actual))
    else if op == ">=" then Ok(Less(value, actual) || Same(actual, value))
    else Err(UnknownOperator)
  }

  lemma CompareSign(actual: Float, op: Op, value: Float)
    ensures Compare(actual, Sign(op), value) == Ok(Holds(op, actual, value))
  {}

  lemma {:induction false} SplitOperatorIsCandidate(expr: string, i: nat, parse: string -> Option<Float>)
    requires i <= |Candidates|
    ensures var r := SplitWith(expr, Candidates[i..], parse); r.Ok? ==> r.value.op in Candidates
    decreases |Candidates| - i
  {
    if i < |Candidates| {
      assert Candidates[i..][1..] == Candidates[i + 1..];
      SplitOperatorIsCandidate(expr, i + 1, parse);
    }
  }

  /** What admission accepts never errs at run time, against any probe of its kind. */
  lemma AcceptedNeverErrs(expr: string, parse: string -> Option<Float>, statusCode: int, durationMs: int,
                          sslExpiryDays: Option<real>, answerCount: int)
    ensures ValidateAssertionExpr(expr, HTTPVars, parse).Ok? <==>
              EvalAssertion(expr, HTTPContext(statusCode, durationMs, sslExpiryDays), parse).Ok?
    ensures ValidateAssertionExpr(expr, DNSVars, parse).Ok? <==>
              EvalAssertion(expr, DNSContext(answerCount, durationMs), parse).Ok?
    ensures ValidateAssertionExpr(expr, TCPVars, parse).Ok? <==>
              EvalAssertion(expr, TCPContext(durationMs), parse).Ok?
  {
    SplitOperatorIsCandidate(expr, 0, parse);
    assert Candidates[0..] == Candidates;
  }

  /** A printed assertion, however it is spaced, evaluates to the comparison it spells. */
  lemma EvalPrinted(p0: string, v: string, p1: string, op: Op, p2: string, l: string, p3: string,
                    ctx: Context, parse: string -> Option<Float>)
    requires Plain(v) && Plain(l) && Trimmed(v, IsSpace) && Trimmed(l, IsSpace)
    requires All(p0, IsSpace) && All(p1, IsSpace) && All(p2, IsSpace) && All(p3, IsSpace)
    requires v in ctx && parse(l).Some?
    ensures EvalAssertion(p0 + v + p1 + Sign(op) + (p2 + l + p3), ctx, parse)
         == Ok(Holds(op, ctx[v], parse(l).value))
  {
    SplitPrinted(p0, v, p1, op, p2, l, p3, parse);
    CompareSign(ctx[v], op, parse(l).value);
  }

  /** What an operator says of two numbers. */
  predicate Meant(op: string, x: real, y: real) {
    if op == "=" then x == y
    else if op == "!=" then x != y
    else if op == "<" then x < y
    else if op == "<=" then x <= y
    else if op == ">" then x > y
    else x >= y
  }

  lemma MeantBySign(op: string, x: real, y: real) returns (o: Op)
    requires op in {"=", "!=", "<", "<=", ">", ">="}
    ensures Sign(o) == op && Holds(o, Finite(x), Finite(y)) == Meant(op, x, y)
  {
    o := if op == "=" then Eq else if op == "!=" then Ne else if op == "<" then Lt
         else if op == "<=" then Le else if op == ">" then Gt else Ge;
  }

  ghost predicate Padding(p0: string, p1: string, p2: string, p3: string) {
    All(p0, IsSpace) && All(p1, IsSpace) && All(p2, IsSpace) && All(p3, IsSpace)
  }

  ghost predicate Variable(v: string) {
    Plain(v) && Trimmed(v, IsSpace)
  }

  predicate Word(v: string) {
    v != "" && forall i | 0 <= i < |v| :: 'a' <= v[i] <= 'z' || v[i] == '_'
  }

  lemma WordIsVariable(v: string)
    requires Word(v)
    ensures Variable(v)
  {}

  lemma VariableNames()
    ensures Variable("status_code") && Variable("duration_ms") && Variable("ssl_expiry_days") && Variable("answer_count")
  {
    WordIsVariable("status_code");
    WordIsVariable("duration_ms");
    WordIsVariable("ssl_expiry_days");
    WordIsVariable("answer_count");
  }

  /** The text of an assertion, however it is spaced. */
  function Print(p0: string, v: string, p1: string, op: string, p2: string, l: string, p3: string): string {
    p0 + v + p1 + op + (p2 + l + p3)
  }

  lemma PrintedMeans(p0: string, v: string, p1: string, op: string, p2: string, l: string, p3: string,
                     ctx: Context, parse: string -> Option<Float>, x: real, y: real)
    requires Padding(p0, p1, p2, p3) && Variable(v) && op in {"=", "!=", "<", "<=", ">", ">="}
    requires Plain(l) && Trimmed(l, IsSpace) && parse(l) == Some(Finite(y)) && v in ctx && ctx[v] == Finite(x)
    ensures EvalAssertion(Print(p0, v, p1, op, p2, l, p3), ctx, parse) == Ok(Meant(op, x, y))
  {
    var o := MeantBySign(op, x, y);
    EvalPrinted(p0, v, p1, o, p2, l, p3, ctx, parse);
  }

  /** Each variable reads its own measurement, whatever the operator and the number: an HTTP probe's
      status code, its duration, and the days its certificate has left, or -1 without one. */
  lemma HTTPAssertionMeans(p0: string, p1: string, op: string, p2: string, l: string, p3: string,
                           parse: string -> Option<Float>, y: real, code: int, ms: int, days: Option<real>)
    requires Padding(p0, p1, p2, p3) && op in {"=", "!=", "<", "<=", ">", ">="}
    requires Plain(l) && Trimmed(l, IsSpace) && parse(l) == Some(Finite(y))
    ensures var ctx := HTTPContext(code, ms, days);
            && EvalAssertion(Print(p0, "status_code", p1, op, p2, l, p3), ctx, parse) == Ok(Meant(op, code as real, y))
            && EvalAssertion(Print(p0, "duration_ms", p1, op, p2, l, p3), ctx, parse) == Ok(Meant(op, ms as real, y))
            && EvalAssertion(Print(p0, "ssl_expiry_days", p1, op, p2, l, p3), ctx, parse)
            == Ok(Meant(op, if days.Some? then days.value else -1.0, y))
  {
    VariableNames();
    var ctx := HTTPContext(code, ms, days);
    PrintedMeans(p0, "status_code", p1, op, p2, l, p3, ctx, parse, code as real, y);
    PrintedMeans(p0, "duration_ms", p1, op, p2, l, p3, ctx, parse, ms as real, y);
    PrintedMeans(p0, "ssl_expiry_days", p1, op, p2, l, p3, ctx, parse, if days.Some? then days.value else -1.0, y);
  }

  /** The same for the answers and the duration of a DNS probe and the duration of a TCP probe. */
  lemma DNSAndTCPAssertionMeans(p0: string, p1: string, op: string, p2: string, l: string, p3: string,
                                parse: string -> Option<Float>, y: real, answers: int, ms: int)
    requires Padding(p0, p1, p2, p3) && op in {"=", "!=", "<", "<=", ">", ">="}
    requires Plain(l) && Trimmed(l, IsSpace) && parse(l) == Some(Finite(y))
    ensures var dns, tcp := DNSContext(answers, ms), TCPContext(ms);
            && EvalAssertion(Print(p0, "answer_count", p1, op, p2, l, p3), dns, parse) == Ok(Meant(op, answers as real, y))
            && EvalAssertion(Print(p0, "duration_ms", p1, op, p2, l, p3), dns, parse) == Ok(Meant(op, ms as real, y))
            && EvalAssertion(Print(p0, "duration_ms", p1, op, p2, l, p3), tcp, parse) == Ok(Meant(op, ms as real, y))
  {
    VariableNames();
    PrintedMeans(p0, "answer_count", p1, op, p2, l, p3, DNSContext(answers, ms), parse, answers as real, y);
    PrintedMeans(p0, "duration_ms", p1, op, p2, l, p3, DNSContext(answers, ms), parse, ms as real, y);
    PrintedMeans(p0, "duration_ms", p1, op, p2, l, p3, TCPContext(ms), parse, ms as real, y);
  }

  /** Nothing passes against NaN except by `!=`, NaN itself included; a number lies strictly between the
      infinities, and an infinity equals itself. */
  lemma AgainstNonFinite(a: Float, x: real, op: string)
    requires op in {"=", "!=", "<", "<=", ">", ">="}
    ensures Compare(a, op, NaN) == Compare(NaN, op, a) == Ok(op == "!=")
    ensures Compare(Finite(x), op, PosInf) == Compare(NegInf, op, Finite(x)) == Ok(op in {"!=", "<", "<="})
    ensures Compare(Finite(x), op, NegInf) == Compare(PosInf, op, Finite(x)) == Ok(op in {"!=", ">", ">="})
    ensures Compare(PosInf, op, PosInf) == Compare(NegInf, op, NegInf) == Ok(op in {"=", "<=", ">="})
  {}

  datatype Assertion = Assertion(name: string, expr: string)
  datatype AssertionResult = AssertionResult(name: string, expr: string, result: int)

  ghost predicate Passes(a: Assertion, ctx: Context, parse: string -> Option<Float>) {
    EvalAssertion(a.expr, ctx, parse) == Ok(true)
  }

  /** An assertion that errs counts as failed; the name reported is the first failing one's. */
  method EvalAssertions(assertions: seq<Assertion>, ctx: Context, parse: string -> Option<Float>)
    returns (ok: bool, failedName: string, out: seq<AssertionResult>)
    ensures ok <==> forall i | 0 <= i < |assertions| :: Passes(assertions[i], ctx, parse)
    ensures ok ==> failedName == ""
    ensures !ok ==> exists k | 0 <= k < |assertions| ::
                      && failedName == assertions[k].name
                      && !Passes(assertions[k], ctx, parse)
                      && forall i | 0 <= i < k :: Passes(assertions[i], ctx, parse)
    ensures |out| == |assertions|
    ensures forall i | 0 <= i < |out| ::
              out[i] == AssertionResult(assertions[i].name, assertions[i].expr,
                                        if Passes(assertions[i], ctx, parse) then 1 else 0)
  {
    out := [];
    ok, failedName := true, "";
    for i := 0 to |assertions|
      invariant ok ==> failedName == "" && forall j | 0 <= j < i :: Passes(assertions[j], ctx, parse)
      invariant !ok ==> exists k | 0 <= k < i ::
                          && failedName == assertions[k].name
                          && !Passes(assertions[k], ctx, parse)
                          && forall j | 0 <= j < k :: Passes(assertions[j], ctx, parse)
      invariant |out| == i
      invariant forall j | 0 <= j < i ::
                  out[j] == AssertionResult(assertions[j].name, assertions[j].expr,
                                            if Passes(assertions[j], ctx, parse) then 1 else 0)
    {
      var a := assertions[i];
      var r := EvalAssertion(a.expr, ctx, parse);
      var passed := r.Ok? && r.value;
      if passed {
        out := out + [AssertionResult(a.name, a.expr, 1)];
      } else {
        if ok {
          failedName := a.name;
          ok := false;
        }
        out := out + [AssertionResult(a.name, a.expr, 0)];
      }
    }
  }
}
